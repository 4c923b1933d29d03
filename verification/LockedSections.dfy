/** Critical sections under one exclusive file lock, as a transition system.  A section is any number of atomic
    steps on shared state; processes interleave freely, may die at any point inside, and the kernel then drops
    their lock.  (the locking pattern of internal/beads/beads_agent.go, handoff.go and audit.go) */
module LockedSections {
  import opened Text

  /** What a section does: its local start state, one step under an input from outside (backend replies, clock),
      and when it is over. */
  datatype Section<!Op, !Local, !Shared, !Input> = Section(
    start: Op -> Local, step: (Op, Local, Shared, Input) -> (Local, Shared), over: Local -> bool)

  datatype Process<Op, Local, Input> =
    | Waiting(op: Op)
    | Inside(op: Op, local: Local, inputs: seq<Input>)
    | Left(op: Op, local: Local, inputs: seq<Input>)
    | Died(op: Op, local: Local, inputs: seq<Input>)

  /** turns records who took the lock, in order. */
  datatype World<Op, Local, Shared, Input> = World(
    shared: Shared, holder: Option<nat>, processes: seq<Process<Op, Local, Input>>, turns: seq<nat>)

  datatype Event<Input> = Acquire(pid: nat) | Step(pid: nat, input: Input) | Release(pid: nat) | Crash(pid: nat)

  /** A process waits for the lock, steps while inside, and releases when over.  A step does not look at the lock. */
  function Next<Op, Local, Shared, Input>(
    m: Section<Op, Local, Shared, Input>, w: World<Op, Local, Shared, Input>, e: Event<Input>)
    : Option<World<Op, Local, Shared, Input>>
  {
    if e.pid >= |w.processes| then None
    else
      var p := w.processes[e.pid];
      match e
      case Acquire(pid) =>
        if p.Waiting? && w.holder.None? then
          Some(w.(holder := Some(pid), processes := w.processes[pid := Inside(p.op, m.start(p.op), [])],
                  turns := w.turns + [pid]))
        else None
      case Step(pid, input) =>
        if p.Inside? && !m.over(p.local) then
          var (local, shared) := m.step(p.op, p.local, w.shared, input);
          Some(w.(shared := shared, processes := w.processes[pid := Inside(p.op, local, p.inputs + [input])]))
        else None
      case Release(pid) =>
        if p.Inside? && m.over(p.local) then
          Some(w.(holder := None, processes := w.processes[pid := Left(p.op, p.local, p.inputs)]))
        else None
      case Crash(pid) =>
        if p.Inside? then Some(w.(holder := None, processes := w.processes[pid := Died(p.op, p.local, p.inputs)]))
        else None
  }

  /** The world after a run of events; none if an event was not possible. */
  function Execute<Op, Local, Shared, Input>(
    m: Section<Op, Local, Shared, Input>, w: World<Op, Local, Shared, Input>, events: seq<Event<Input>>)
    : Option<World<Op, Local, Shared, Input>>
  {
    if events == [] then Some(w)
    else
      match Execute(m, w, events[..|events| - 1])
      case None => None
      case Some(before) => Next(m, before, events[|events| - 1])
  }

  ghost predicate Initial<Op, Local, Shared, Input>(w: World<Op, Local, Shared, Input>) {
    w.holder.None? && w.turns == [] && forall p <- w.processes :: p.Waiting?
  }

  // ---------- Serial execution ----------

  /** One section alone, from a shared state, on its inputs. */
  function Alone<Op, Local, Shared, Input>(
    m: Section<Op, Local, Shared, Input>, op: Op, shared: Shared, inputs: seq<Input>): (Local, Shared)
  {
    if inputs == [] then (m.start(op), shared)
    else
      var (local, s) := Alone(m, op, shared, inputs[..|inputs| - 1]);
      m.step(op, local, s, inputs[|inputs| - 1])
  }

  /** The processes that took a turn have started. */
  ghost predicate Took<Op, Local, Input>(processes: seq<Process<Op, Local, Input>>, turns: seq<nat>) {
    forall i | 0 <= i < |turns| :: turns[i] < |processes| && !processes[turns[i]].Waiting?
  }

  /** The shared state after the sections of the given turns, one whole section after the other. */
  ghost function Serial<Op, Local, Shared, Input>(
    m: Section<Op, Local, Shared, Input>, s0: Shared, processes: seq<Process<Op, Local, Input>>, turns: seq<nat>): Shared
    requires Took(processes, turns)
  {
    if turns == [] then s0
    else
      var p := processes[turns[|turns| - 1]];
      Alone(m, p.op, Serial(m, s0, processes, turns[..|turns| - 1]), p.inputs).1
  }

  /** Process k of the turns saw exactly what it would have seen running alone after the turns before it. */
  ghost predicate SawSerial<Op, Local, Shared, Input>(
    m: Section<Op, Local, Shared, Input>, s0: Shared, processes: seq<Process<Op, Local, Input>>, turns: seq<nat>, k: nat)
    requires k < |turns| && Took(processes, turns)
  {
    var p := processes[turns[k]];
    p.local == Alone(m, p.op, Serial(m, s0, processes, turns[..k]), p.inputs).0
  }

  /** The lock and the turns fit together: at most one process is inside, and it took the last turn. */
  ghost predicate LockInv<Op, Local, Shared, Input>(w: World<Op, Local, Shared, Input>) {
    && Took(w.processes, w.turns)
    && (forall i, j | 0 <= i < j < |w.turns| :: w.turns[i] != w.turns[j])
    && (forall p | 0 <= p < |w.processes| && !w.processes[p].Waiting? :: p in w.turns)
    && (forall p | 0 <= p < |w.processes| :: w.processes[p].Inside? <==> w.holder == Some(p))
    && (w.holder.Some? ==> w.turns != [] && w.turns[|w.turns| - 1] == w.holder.value < |w.processes|)
  }

  /** The world is as if the turns had run one after the other. */
  ghost predicate SerialInv<Op, Local, Shared, Input>(
    m: Section<Op, Local, Shared, Input>, s0: Shared, w: World<Op, Local, Shared, Input>)
    requires Took(w.processes, w.turns)
  {
    && w.shared == Serial(m, s0, w.processes, w.turns)
    && (forall k | 0 <= k < |w.turns| :: SawSerial(m, s0, w.processes, w.turns, k))
  }

  ghost predicate Inv<Op, Local, Shared, Input>(
    m: Section<Op, Local, Shared, Input>, s0: Shared, w: World<Op, Local, Shared, Input>)
  {
    LockInv(w) && SerialInv(m, s0, w)
  }

  /** Serial execution depends only on the operations and inputs of the processes that took a turn. */
  lemma {:induction false} SerialSame<Op, Local, Shared, Input>(
    m: Section<Op, Local, Shared, Input>, s0: Shared, p1: seq<Process<Op, Local, Input>>,
    p2: seq<Process<Op, Local, Input>>, turns: seq<nat>)
    requires Took(p1, turns) && Took(p2, turns)
    requires forall i | 0 <= i < |turns| :: p1[turns[i]].op == p2[turns[i]].op && p1[turns[i]].inputs == p2[turns[i]].inputs
    ensures Serial(m, s0, p1, turns) == Serial(m, s0, p2, turns)
  {
    if turns != [] {
      SerialSame(m, s0, p1, p2, turns[..|turns| - 1]);
    }
  }

  lemma SawSerialSame<Op, Local, Shared, Input>(
    m: Section<Op, Local, Shared, Input>, s0: Shared, p1: seq<Process<Op, Local, Input>>,
    p2: seq<Process<Op, Local, Input>>, t1: seq<nat>, t2: seq<nat>, k: nat)
    requires Took(p1, t1) && Took(p2, t2) && k < |t1| && k < |t2| && t1[..k + 1] == t2[..k + 1]
    requires forall i | 0 <= i <= k :: p1[t1[i]].op == p2[t1[i]].op && p1[t1[i]].inputs == p2[t1[i]].inputs
    requires SawSerial(m, s0, p1, t1, k) && p1[t1[k]].local == p2[t1[k]].local
    ensures SawSerial(m, s0, p2, t2, k)
  {
    assert t1[..k] == t1[..k + 1][..k] == t2[..k] && t1[..k + 1][k] == t2[..k + 1][k];
    SerialSame(m, s0, p1, p2, t1[..k]);
  }

  lemma StepKeepsLock<Op, Local, Shared, Input>(
    m: Section<Op, Local, Shared, Input>, w: World<Op, Local, Shared, Input>, e: Event<Input>)
    requires LockInv(w) && Next(m, w, e).Some?
    ensures LockInv(Next(m, w, e).value)
  {
    var w' := Next(m, w, e).value;
    assert e.Acquire? ==> e.pid in w'.turns by { if e.Acquire? { assert w'.turns[|w.turns|] == e.pid; } }
    assert forall p <- w.turns :: p in w'.turns;
  }

  lemma StepKeepsInv<Op, Local, Shared, Input>(
    m: Section<Op, Local, Shared, Input>, s0: Shared, w: World<Op, Local, Shared, Input>, e: Event<Input>)
    requires Inv(m, s0, w) && Next(m, w, e).Some?
    ensures Inv(m, s0, Next(m, w, e).value)
  {
    StepKeepsLock(m, w, e);
    match e
    case Acquire(pid) => AcquireKeepsSerial(m, s0, w, pid);
    case Step(pid, input) => MoveKeepsSerial(m, s0, w, pid, input);
    case Release(pid) => LeaveKeepsSerial(m, s0, w, e);
    case Crash(pid) => LeaveKeepsSerial(m, s0, w, e);
  }

  lemma AcquireKeepsSerial<Op, Local, Shared, Input>(
    m: Section<Op, Local, Shared, Input>, s0: Shared, w: World<Op, Local, Shared, Input>, pid: nat)
    requires Inv(m, s0, w) && Next(m, w, Acquire(pid)).Some? && LockInv(Next(m, w, Acquire(pid)).value)
    ensures SerialInv(m, s0, Next(m, w, Acquire(pid)).value)
  {
    var w' := Next(m, w, Acquire(pid)).value;
    var n := |w.turns|;
    assert w'.turns[..n] == w.turns;
    SerialSame(m, s0, w.processes, w'.processes, w.turns);
    forall k | 0 <= k < n ensures SawSerial(m, s0, w'.processes, w'.turns, k) {
      assert w'.turns[..k + 1] == w.turns[..k + 1];
      SawSerialSame(m, s0, w.processes, w'.processes, w.turns, w'.turns, k);
    }
  }

  /** The last process of the turns takes one more step. */
  lemma LastStepsOn<Op, Local, Shared, Input>(
    m: Section<Op, Local, Shared, Input>, s0: Shared, p1: seq<Process<Op, Local, Input>>,
    p2: seq<Process<Op, Local, Input>>, turns: seq<nat>, input: Input)
    requires turns != [] && Took(p1, turns) && Took(p2, turns)
    requires SawSerial(m, s0, p1, turns, |turns| - 1)
    requires var p, q := p1[turns[|turns| - 1]], p2[turns[|turns| - 1]];
      q.op == p.op && q.inputs == p.inputs + [input] && q.local == m.step(p.op, p.local, Serial(m, s0, p1, turns), input).0
    requires Serial(m, s0, p1, turns[..|turns| - 1]) == Serial(m, s0, p2, turns[..|turns| - 1])
    ensures SawSerial(m, s0, p2, turns, |turns| - 1)
    ensures var p := p1[turns[|turns| - 1]];
      Serial(m, s0, p2, turns) == m.step(p.op, p.local, Serial(m, s0, p1, turns), input).1
  {
    var p, q := p1[turns[|turns| - 1]], p2[turns[|turns| - 1]];
    assert q.inputs[..|q.inputs| - 1] == p.inputs;
  }

  /** The turns before the last do not depend on what the last process does. */
  lemma EarlierStay<Op, Local, Shared, Input>(
    m: Section<Op, Local, Shared, Input>, s0: Shared, p1: seq<Process<Op, Local, Input>>,
    p2: seq<Process<Op, Local, Input>>, turns: seq<nat>)
    requires turns != [] && Took(p1, turns) && Took(p2, turns)
    requires forall i | 0 <= i < |turns| - 1 :: p1[turns[i]] == p2[turns[i]]
    requires forall k | 0 <= k < |turns| :: SawSerial(m, s0, p1, turns, k)
    ensures Serial(m, s0, p1, turns[..|turns| - 1]) == Serial(m, s0, p2, turns[..|turns| - 1])
    ensures forall k | 0 <= k < |turns| - 1 :: SawSerial(m, s0, p2, turns, k)
  {
    SerialSame(m, s0, p1, p2, turns[..|turns| - 1]);
    forall k | 0 <= k < |turns| - 1 ensures SawSerial(m, s0, p2, turns, k) {
      SawSerialSame(m, s0, p1, p2, turns, turns, k);
    }
  }

  lemma MoveKeepsSerial<Op, Local, Shared, Input>(
    m: Section<Op, Local, Shared, Input>, s0: Shared, w: World<Op, Local, Shared, Input>, pid: nat, input: Input)
    requires Took(w.processes, w.turns) && SerialInv(m, s0, w) && Next(m, w, Step(pid, input)).Some?
    requires w.turns != [] && w.turns[|w.turns| - 1] == pid && forall i | 0 <= i < |w.turns| - 1 :: w.turns[i] != pid
    ensures Took(Next(m, w, Step(pid, input)).value.processes, w.turns)
    ensures SerialInv(m, s0, Next(m, w, Step(pid, input)).value)
  {
    var w' := Next(m, w, Step(pid, input)).value;
    var p, q := w.processes[pid], w'.processes[pid];
    assert w'.turns == w.turns;
    assert q.op == p.op && q.inputs == p.inputs + [input];
    assert (q.local, w'.shared) == m.step(p.op, p.local, Serial(m, s0, w.processes, w.turns), input);
    assert forall i | 0 <= i < |w.turns| - 1 :: w.processes[w.turns[i]] == w'.processes[w.turns[i]];
    EarlierStay(m, s0, w.processes, w'.processes, w.turns);
    LastStepsOn(m, s0, w.processes, w'.processes, w.turns, input);
  }

  lemma LeaveKeepsSerial<Op, Local, Shared, Input>(
    m: Section<Op, Local, Shared, Input>, s0: Shared, w: World<Op, Local, Shared, Input>, e: Event<Input>)
    requires (e.Release? || e.Crash?) && Inv(m, s0, w) && Next(m, w, e).Some? && LockInv(Next(m, w, e).value)
    ensures SerialInv(m, s0, Next(m, w, e).value)
  {
    var w' := Next(m, w, e).value;
    SerialSame(m, s0, w.processes, w'.processes, w.turns);
    forall k | 0 <= k < |w.turns| ensures SawSerial(m, s0, w'.processes, w'.turns, k) {
      SawSerialSame(m, s0, w.processes, w'.processes, w.turns, w.turns, k);
    }
  }

  /** Serializability: after any run, however steps of different processes interleave and whoever dies, the shared
      state is that of the sections run whole, one after the other, in the order they took the lock; and each
      process computed what it would have computed in that serial run. */
  lemma {:induction false} RunsAreSerial<Op, Local, Shared, Input>(
    m: Section<Op, Local, Shared, Input>, w0: World<Op, Local, Shared, Input>, events: seq<Event<Input>>)
    requires Initial(w0) && Execute(m, w0, events).Some?
    ensures Inv(m, w0.shared, Execute(m, w0, events).value)
  {
    if events != [] {
      RunsAreSerial(m, w0, events[..|events| - 1]);
      StepKeepsInv(m, w0.shared, Execute(m, w0, events[..|events| - 1]).value, events[|events| - 1]);
    }
  }

  /** One turn of the serial run: the next process runs its section alone on what the turns before it left. */
  lemma SerialTurn<Op, Local, Shared, Input>(
    m: Section<Op, Local, Shared, Input>, s0: Shared, w: World<Op, Local, Shared, Input>, n: nat)
    requires Inv(m, s0, w) && 1 <= n <= |w.turns|
    ensures var p := w.processes[w.turns[n - 1]];
      (p.local, Serial(m, s0, w.processes, w.turns[..n])) == Alone(m, p.op, Serial(m, s0, w.processes, w.turns[..n - 1]), p.inputs)
  {
    assert w.turns[..n][..n - 1] == w.turns[..n - 1] && w.turns[..n][n - 1] == w.turns[n - 1];
    assert SawSerial(m, s0, w.processes, w.turns, n - 1);
  }

  /** Processes keep their operation. */
  lemma {:induction false} OperationsFixed<Op, Local, Shared, Input>(
    m: Section<Op, Local, Shared, Input>, w0: World<Op, Local, Shared, Input>, events: seq<Event<Input>>)
    requires Execute(m, w0, events).Some?
    ensures var w := Execute(m, w0, events).value;
      |w.processes| == |w0.processes| && forall p | 0 <= p < |w.processes| :: w.processes[p].op == w0.processes[p].op
  {
    if events != [] {
      OperationsFixed(m, w0, events[..|events| - 1]);
    }
  }

  /** At most one process is inside. */
  lemma MutualExclusion<Op, Local, Shared, Input>(
    m: Section<Op, Local, Shared, Input>, w0: World<Op, Local, Shared, Input>, events: seq<Event<Input>>, p: nat, q: nat)
    requires Initial(w0) && Execute(m, w0, events).Some?
    requires p < |w0.processes| && q < |w0.processes|
    ensures var w := Execute(m, w0, events).value;
      |w.processes| == |w0.processes| && (w.processes[p].Inside? && w.processes[q].Inside? ==> p == q)
  {
    RunsAreSerial(m, w0, events);
    OperationsFixed(m, w0, events);
  }

  /** Nobody is blocked for good: when the lock is free every waiting process can take it; when it is not, its holder
      can step or release, may die, and once it is out -- either way -- every waiting process can take the lock. */
  lemma NobodyBlocked<Op, Local, Shared, Input>(
    m: Section<Op, Local, Shared, Input>, w0: World<Op, Local, Shared, Input>, events: seq<Event<Input>>, p: nat, input: Input)
    requires Initial(w0) && Execute(m, w0, events).Some?
    requires p < |w0.processes|
    ensures var w := Execute(m, w0, events).value;
      && |w.processes| == |w0.processes|
      && (w.processes[p].Waiting? && w.holder.None? ==> Next(m, w, Acquire(p)).Some?)
      && (w.holder.Some? ==>
            var h := w.holder.value;
            && (Next(m, w, Step(h, input)).Some? || Next(m, w, Release(h)).Some?)
            && Next(m, w, Crash(h)).Some?
            && forall out | out == Crash(h) || out == Release(h) :: Next(m, w, out).Some? && w.processes[p].Waiting? ==>
                 Next(m, Next(m, w, out).value, Acquire(p)).Some?)
  {
    RunsAreSerial(m, w0, events);
    OperationsFixed(m, w0, events);
    hide Execute, SerialInv;
  }
}

/**
 The system calls that put processes and memory together: fork with its failure
 arms, and exit. A fork that fails after it has a PID and a stack cleans up after
 the new process, and that empties the address space it runs in: the caller's.
 */
module ForkCall {
  import opened AddressSpaces
  import opened CowExit
  import opened CowFork
  import opened CowKernel
  import opened CowRuns
  import opened KernelFrames
  import opened KernelMap
  import opened Processes
  import opened VmMap

  const STACK_SIZE: nat := 0x1_0000

  /** How the fork call ended. `child` is the top-level table of the new process. */
  datatype ForkOutcome =
    | NoProcess
    | AllocatorNotCopied
    | TableNotCloned
    | DescriptorsNotCopied(child: nat)
    | Forked(pid: nat, child: nat)

  /** What the call does to the address spaces, as a run of the machine: first the kernel
      may map a stack. */
  function ForkEvents(r: nat, outcome: ForkOutcome): seq<Event> {
    [Event.Kernel] + LateEvents(r, outcome)
  }

  function LateEvents(r: nat, outcome: ForkOutcome): seq<Event> {
    match outcome
    case NoProcess => []
    case AllocatorNotCopied => [Event.Exit(r)]
    case TableNotCloned => [Abandoned, Event.Exit(r)]
    case DescriptorsNotCopied(child) => [Event.Fork(r, child), Event.Exit(r)]
    case Forked(_, child) => [Event.Fork(r, child)]
  }

  ghost predicate RunsTo(s: State, events: seq<Event>, s': State) {
    exists states: seq<State> :: IsRun(states, events) && states[0] == s && states[|events|] == s'
  }

  lemma OneStep(s: State, ev: Event, s': State)
    requires Next(s, ev, s')
    ensures RunsTo(s, [ev], s')
  {
    assert IsRun([s, s'], [ev]);
  }

  lemma TwoSteps(s: State, ev: Event, s1: State, ev': Event, s': State)
    requires Next(s, ev, s1) && Next(s1, ev', s')
    ensures RunsTo(s, [ev, ev'], s')
  {
    var states, events := [s, s1, s'], [ev, ev'];
    assert Next(states[0], events[0], states[1]) && Next(states[1], events[1], states[2]);
    assert IsRun(states, events);
  }

  lemma StepFirst(s: State, ev: Event, s1: State, events: seq<Event>, s': State)
    requires Next(s, ev, s1) && RunsTo(s1, events, s')
    ensures RunsTo(s, [ev] + events, s')
  {
    hide Next;
    var states: seq<State> :| IsRun(states, events) && states[0] == s1 && states[|events|] == s';
    var all, evs := [s] + states, [ev] + events;
    forall i | 0 <= i < |evs| ensures Next(all[i], evs[i], all[i + 1]) {
      if i > 0 { assert Next(states[i - 1], events[i - 1], states[i]); }
    }
    assert IsRun(all, evs) && all[|evs|] == s';
  }

  /** The page tables and the process table share no array. */
  ghost predicate Separate(pm: ProcessManager, k: CoW) {
    var bits := pm.pidBitmap as object;
    bits != k.mem && bits != k.phys.bitmap && bits != k.phys.refCount
  }

  /** `sysForkWithFrame` of the process whose top-level table is r. A stack comes from the
      pool, or is mapped at `stackBase`, 0 if the kernel has no room for it; the other
      parameters say which of the allocations outside the page tables succeed. `stacked` tells
      whether a stack was mapped, and `s1` is the memory once that is settled: each way the
      call can end has its exact condition over these, the parameters and the frames that are
      free in s1. */
  method SysFork(pm: ProcessManager, k: CoW, r: nat, stackBase: nat, allocatorCopied: bool, mapped: bool,
                 descriptorsCopied: bool)
    returns (rax: int, outcome: ForkOutcome, ghost stacked: bool, ghost s1: State)
    requires pm.Valid() && k.Valid() && r in k.roots && Separate(pm, k)
    requires stackBase == 0 || KernelRange(stackBase, stackBase + STACK_SIZE)
    modifies pm, pm.pidBitmap, pm.processData, k`roots, k`reserved, k.mem, k.phys, k.phys.bitmap, k.phys.refCount
    ensures pm.Valid() && k.Valid()
    ensures RunsTo(old(k.S()), ForkEvents(r, outcome), k.S())
    ensures KernelStep(old(k.S()), s1)
    ensures if stacked then StackMapped(old(k.S()), s1, stackBase) else old(pm.freeStacks) > 0 ==> s1 == old(k.S())
    ensures stacked ==> old(pm.freeStacks) == 0 && stackBase != 0
    ensures !stacked && old(pm.PidFree()) && old(pm.freeStacks) == 0 && stackBase != 0 ==> FreeFrames(s1) == {}
    ensures outcome == NoProcess <==> !(old(pm.PidFree()) && (old(pm.freeStacks) > 0 || stacked))
    ensures outcome == AllocatorNotCopied <==>
      old(pm.PidFree()) && (old(pm.freeStacks) > 0 || stacked) && !allocatorCopied
    ensures outcome == TableNotCloned <==>
      && old(pm.PidFree()) && (old(pm.freeStacks) > 0 || stacked) && allocatorCopied
      && (!mapped || FreeFrames(s1) == {})
    ensures outcome.DescriptorsNotCopied? <==>
      && old(pm.PidFree()) && (old(pm.freeStacks) > 0 || stacked) && allocatorCopied
      && mapped && FreeFrames(s1) != {} && !descriptorsCopied
    ensures outcome.Forked? <==>
      && old(pm.PidFree()) && (old(pm.freeStacks) > 0 || stacked) && allocatorCopied
      && mapped && FreeFrames(s1) != {} && descriptorsCopied
    ensures !outcome.Forked? ==> rax == -1 && pm.held == old(pm.held) && pm.ring == old(pm.ring)
    ensures outcome.Forked? ==> rax == outcome.pid && pm.IsChild(outcome.pid)
    ensures outcome.Forked? ==> outcome.pid !in old(pm.held) && pm.held == old(pm.held) + {outcome.pid}
    ensures outcome.Forked? ==> forall q: nat :: q < outcome.pid ==> q in old(pm.held)
    ensures pm.freeStacks ==
      if outcome.Forked? then (if old(pm.freeStacks) > 0 then old(pm.freeStacks) - 1 else 0)
      else if outcome != NoProcess && stacked then 1
      else old(pm.freeStacks)
    ensures outcome.Forked? ==> RunList.Moves(old(pm.ring), RunList.Add(outcome.pid), pm.ring)
    ensures outcome.Forked? ==> pm.ring == old(pm.ring) + [outcome.pid]
  {
    hide ProcessManager.Valid, ProcessManager.Forking, RunsTo, Inv, CoW.Ready, KernelStep, KernelRange, StackMapped,
      FreeFrames;
    ghost var s := k.S();
    stacked, s1 := false, s;
    var pid := pm.TakePid();
    if pid == PID_MAX {
      NoKernelStep(s);
      KernelOnly(s, s);
      return -1, NoProcess, stacked, s1;
    }
    pm.PidInRange(pid);
    var stack, madeStack := NewStack(pm, k, r, pid, stackBase);
    stacked := madeStack;
    s1 := k.S();
    if !stack {
      KernelOnly(s, s1);
      return -1, NoProcess, stacked, s1;
    }
    outcome := ForkWith(pm, k, r, pid, allocatorCopied, mapped, descriptorsCopied);
    StepFirst(s, Event.Kernel, s1, LateEvents(r, outcome), k.S());
    rax := if outcome.Forked? then pid else -1;
  }

  lemma KernelOnly(s: State, s': State)
    requires KernelStep(s, s')
    ensures RunsTo(s, [Event.Kernel], s')
    ensures [Event.Kernel] + [] == [Event.Kernel]
  {
    assert Next(s, Event.Kernel, s');
    OneStep(s, Event.Kernel, s');
  }

  /** Sixteen pages at `base`, for the kernel alone, writable, managed and not executable,
      those that were not there each on a frame of its own. */
  ghost predicate StackMapped(s: State, s': State, base: nat) {
    && KernelRangeMapped(s, s', base, base + 0x1_0000, Flags(false, true, true, true), 0)
    && OwnFrames(s, s', base, base + 0x1_0000)
  }

  /** A stack for the new process: from the pool, or sixteen new pages of the kernel's. */
  method NewStack(pm: ProcessManager, k: CoW, r: nat, pid: nat, stackBase: nat) returns (done: bool, made: bool)
    requires pm.Forking(pid) && k.Valid() && r in k.roots && Separate(pm, k)
    requires stackBase == 0 || KernelRange(stackBase, stackBase + STACK_SIZE)
    modifies pm`lastCheckedIndex, pm`held, pm`freeStacks, pm.pidBitmap, k`reserved, k.mem, k.phys, k.phys.bitmap,
      k.phys.refCount
    ensures k.Valid() && KernelStep(old(k.S()), k.S()) && (made ==> old(pm.freeStacks) == 0 && stackBase != 0)
    ensures made ==> StackMapped(old(k.S()), k.S(), stackBase)
    ensures old(pm.freeStacks) > 0 || stackBase == 0 ==> k.S() == old(k.S())
    ensures !made && old(pm.freeStacks) == 0 && stackBase != 0 ==> FreeFrames(k.S()) == {}
    ensures done <==> old(pm.freeStacks) > 0 || made
    ensures done ==> pm.Forking(pid) && pm.held == old(pm.held)
    ensures done ==> pm.freeStacks == if old(pm.freeStacks) > 0 then old(pm.freeStacks) - 1 else 0
    ensures !done ==> pm.Valid() && pm.held == old(pm.held) - {pid} && pm.freeStacks == old(pm.freeStacks)
  {
    hide ProcessManager.Valid, ProcessManager.Forking, Inv, CoW.Ready, KernelStep, KernelRangeMapped, OwnFrames,
      FreeFrames;
    NoKernelStep(k.S());
    KernelRights();
    made := false;
    if pm.freeStacks == 0 && stackBase != 0 {
      made := MapKernelPages(k, r, stackBase, stackBase + STACK_SIZE, KERNEL_FLAGS, 0);
    }
    done := pm.TakeStack(pid, made);
  }

  /** What the late failure arms share: the PID and the stack go back, and `cleanup`
      empties the address space in use. */
  method CleanUpFailed(pm: ProcessManager, k: CoW, r: nat, pid: nat)
    requires pm.Forking(pid) && k.Valid() && r in k.roots && Separate(pm, k)
    modifies pm`lastCheckedIndex, pm`held, pm`freeStacks, pm.pidBitmap, k.mem, k.phys, k.phys.bitmap, k.phys.refCount
    ensures pm.Valid() && pm.held == old(pm.held) - {pid} && k.Valid() && ExitStep(old(k.S()), k.S(), r)
    ensures pm.freeStacks == old(pm.freeStacks) + 1
  {
    hide ProcessManager.Valid, ProcessManager.Forking, Inv, ExitStep, CoW.Ready;
    pm.AbandonFork(pid);
    k.DeallocateUserMemory(r);
  }

  /** The rest of the call, once there are a PID and a stack. */
  method ForkWith(pm: ProcessManager, k: CoW, r: nat, pid: nat, allocatorCopied: bool, mapped: bool,
                  descriptorsCopied: bool) returns (outcome: ForkOutcome)
    requires pm.Forking(pid) && k.Valid() && r in k.roots && Separate(pm, k)
    modifies pm, pm.pidBitmap, pm.processData, k`roots, k.mem, k.phys, k.phys.bitmap, k.phys.refCount
    ensures pm.Valid() && k.Valid() && outcome != NoProcess
    ensures RunsTo(old(k.S()), LateEvents(r, outcome), k.S())
    ensures outcome == AllocatorNotCopied <==> !allocatorCopied
    ensures outcome == TableNotCloned <==> allocatorCopied && (!mapped || FreeFrames(old(k.S())) == {})
    ensures outcome.DescriptorsNotCopied? <==>
      allocatorCopied && mapped && FreeFrames(old(k.S())) != {} && !descriptorsCopied
    ensures outcome.Forked? <==> allocatorCopied && mapped && FreeFrames(old(k.S())) != {} && descriptorsCopied
    ensures !outcome.Forked? ==> pm.held == old(pm.held) - {pid} && pm.ring == old(pm.ring)
    ensures pm.freeStacks == old(pm.freeStacks) + if outcome.Forked? then 0 else 1
    ensures outcome.Forked? ==> outcome.pid == pid && pm.IsChild(pid) && pm.held == old(pm.held)
    ensures outcome.Forked? ==> RunList.Moves(old(pm.ring), RunList.Add(pid), pm.ring)
    ensures outcome.Forked? ==> pm.ring == old(pm.ring) + [pid]
  {
    hide ProcessManager.Valid, ProcessManager.Forking, RunList.Moves, Inv, ForkStep, ExitStep, Unchanged, RunsTo,
      CoW.Ready, FreeFrames;
    ghost var s := k.S();
    if !allocatorCopied {
      CleanUpFailed(pm, k, r, pid);
      OneStep(s, Event.Exit(r), k.S());
      return AllocatorNotCopied;
    }
    pm.FillChild(pid);
    var child := k.ClonePageTable(r, mapped);
    ghost var s1 := k.S();
    if child == 0 {
      CleanUpFailed(pm, k, r, pid);
      TwoSteps(s, Abandoned, s1, Event.Exit(r), k.S());
      return TableNotCloned;
    }
    outcome := FinishCall(pm, k, r, pid, child, descriptorsCopied, s);
  }

  /** The end of the call, once the child has its address space. */
  method FinishCall(pm: ProcessManager, k: CoW, r: nat, pid: nat, child: nat, descriptorsCopied: bool, ghost s: State)
    returns (outcome: ForkOutcome)
    requires pm.Forking(pid) && pm.processData[pid].pid == pid && pm.IsChild(pid)
    requires k.Valid() && r in k.roots && Separate(pm, k) && ForkStep(s, k.S(), r, child)
    modifies pm, pm.pidBitmap, pm.processData, k.mem, k.phys, k.phys.bitmap, k.phys.refCount
    ensures pm.Valid() && k.Valid() && RunsTo(s, LateEvents(r, outcome), k.S())
    ensures outcome == if descriptorsCopied then Forked(pid, child) else DescriptorsNotCopied(child)
    ensures !outcome.Forked? ==> pm.held == old(pm.held) - {pid} && pm.ring == old(pm.ring)
    ensures pm.freeStacks == old(pm.freeStacks) + if outcome.Forked? then 0 else 1
    ensures outcome.Forked? ==> pm.IsChild(pid) && pm.held == old(pm.held)
    ensures outcome.Forked? ==> RunList.Moves(old(pm.ring), RunList.Add(pid), pm.ring)
    ensures outcome.Forked? ==> pm.ring == old(pm.ring) + [pid]
  {
    hide ProcessManager.Valid, ProcessManager.Forking, RunList.Moves, Inv, ForkStep, ExitStep, RunsTo, CoW.Ready;
    ghost var s1 := k.S();
    if !descriptorsCopied {
      CleanUpFailed(pm, k, r, pid);
      TwoSteps(s, Event.Fork(r, child), s1, Event.Exit(r), k.S());
      return DescriptorsNotCopied(child);
    }
    pm.FinishFork(pid);
    OneStep(s, Event.Fork(r, child), s1);
    return Forked(pid, child);
  }

  /** `exit` of the running process: its user half goes, and its entry waits to be reaped. */
  method SysExit(pm: ProcessManager, k: CoW, r: nat, frame: nat, returnCode: int, status: int) returns (frame': nat)
    requires pm.Valid() && pm.ring[0] != RunList.IDLE && k.Valid() && r in k.roots && Separate(pm, k)
    modifies pm, pm.processData, k.mem, k.phys, k.phys.bitmap, k.phys.refCount
    ensures pm.Valid() && k.Valid() && ExitStep(old(k.S()), k.S(), r) && pm.held == old(pm.held)
    ensures old(pm.ring[0]) !in pm.ring && |old(pm.ring)| > 1 && pm.ring == old(pm.ring)[1..]
    ensures pm.freeStacks == old(pm.freeStacks) + 1
    ensures var p := pm.processData[old(pm.ring[0])]; p.dead == 1 && p.returnCode == returnCode && p.status == status
  {
    hide ProcessManager.Ring, ProcessManager.Bits, ProcessManager.Lives, RunList.Moves, Inv, ExitStep;
    pm.Running();
    k.DeallocateUserMemory(r);
    frame' := pm.Exit(frame, returnCode, status);
  }

  // ------------------------------------------------ what a failed fork does

  /** The views of all processes there were before. */
  ghost predicate ViewsKept(s: State, s': State) {
    forall r, q | r in s.roots :: Agree(AllViews(s'), AllViews(s), r, q)
  }

  ghost predicate MapsNothing(s: State, r: nat) {
    forall q :: (r, q) !in AllViews(s)
  }

  lemma RunEffect(s: State, events: seq<Event>, s': State)
    requires Inv(s) && RunsTo(s, events, s')
    ensures Inv(s') && AllViews(s') == EagerRun(AllViews(s), events)
  {
    var states: seq<State> :| IsRun(states, events) && states[0] == s && states[|events|] == s';
    CopyOnWriteRefinesEagerCopy(states, events);
  }

  lemma EagerNone(v: Views)
    ensures EagerRun(v, []) == v
  {}

  lemma EagerOne(v: Views, ev: Event)
    ensures EagerRun(v, [ev]) == Eager(v, ev)
  {
    hide Eager;
    assert [ev][..0] == [];
    EagerNone(v);
  }

  lemma EagerTwo(v: Views, ev: Event, ev': Event)
    ensures EagerRun(v, [ev, ev']) == Eager(Eager(v, ev), ev')
  {
    hide Eager;
    var both := [ev, ev'];
    assert both[..1] == [ev] && both[1] == ev';
    EagerOne(v, ev);
  }

  /** The views after a failed fork. */
  ghost function ViewsAfter(v: Views, r: nat, outcome: ForkOutcome): Views {
    match outcome
    case NoProcess => v
    case DescriptorsNotCopied(child) => Removed(Duplicated(v, r, child), r)
    case Forked(_, child) => Duplicated(v, r, child)
    case _ => Removed(v, r)
  }

  /** What the kernel does first changes no view. */
  lemma {:induction false} EagerKernelFirst(v: Views, events: seq<Event>)
    ensures EagerRun(v, [Event.Kernel] + events) == EagerRun(v, events)
    decreases |events|
  {
    hide Eager;
    var all := [Event.Kernel] + events;
    if events == [] {
      assert all == [Event.Kernel];
      EagerOne(v, Event.Kernel);
      KernelIsUnseen(v);
    } else {
      var n := |events| - 1;
      assert all[..|all| - 1] == [Event.Kernel] + events[..n] && all[|all| - 1] == events[n];
      EagerKernelFirst(v, events[..n]);
    }
  }

  lemma KernelIsUnseen(v: Views)
    ensures Eager(v, Event.Kernel) == v
  {}

  lemma EagerFork(v: Views, r: nat, outcome: ForkOutcome)
    ensures EagerRun(v, ForkEvents(r, outcome)) == ViewsAfter(v, r, outcome)
  {
    hide EagerRun, Removed, Duplicated;
    EagerKernelFirst(v, LateEvents(r, outcome));
    match outcome
    case NoProcess => EagerNone(v);
    case AllocatorNotCopied => EagerOne(v, Event.Exit(r));
    case TableNotCloned => EagerTwo(v, Abandoned, Event.Exit(r));
    case DescriptorsNotCopied(child) => EagerTwo(v, Event.Fork(r, child), Event.Exit(r));
    case Forked(_, child) => EagerOne(v, Event.Fork(r, child));
  }

  /** At the processes there were before, a failed fork takes the caller's views and no
      others. */
  lemma FailedAt(v: Views, r: nat, outcome: ForkOutcome, r': nat, q: seq<nat>)
    requires !outcome.Forked? && (outcome.DescriptorsNotCopied? ==> outcome.child != r')
    ensures var v' := ViewsAfter(v, r, outcome);
      && ((r', q) in v' <==> (r', q) in v && (outcome == NoProcess || r' != r))
      && ((r', q) in v' ==> v'[(r', q)] == v[(r', q)])
  {
    RemovedAt(v, r, r', q);
    if outcome.DescriptorsNotCopied? {
      DuplicatedAt(v, r, outcome.child, r', q);
      RemovedAt(Duplicated(v, r, outcome.child), r, r', q);
    }
  }

  lemma ChildIsNew(s: State, s': State, r: nat, child: nat)
    requires Inv(s) && RunsTo(s, ForkEvents(r, DescriptorsNotCopied(child)), s')
    ensures child !in s.roots
  {
    hide Inv, Next;
    var events := ForkEvents(r, DescriptorsNotCopied(child));
    var states: seq<State> :| IsRun(states, events) && states[0] == s && states[|events|] == s';
    KernelBefore(states[0], states[1], states[2], r, child, events);
  }

  lemma KernelBefore(s: State, s1: State, s2: State, r: nat, child: nat, events: seq<Event>)
    requires Inv(s) && |events| > 1 && events[0] == Event.Kernel && events[1] == Event.Fork(r, child)
    requires Next(s, events[0], s1) && Next(s1, events[1], s2)
    ensures child !in s.roots
  {
    assert KernelStep(s, s1) && ForkStep(s1, s2, r, child);
    hide Next, KernelStep, ForkStep;
    KernelKeepsInv(s, s1);
    NewChild(s, s1, s2, r, child);
  }

  lemma NewChild(s: State, s1: State, s2: State, r: nat, child: nat)
    requires Inv(s1) && KernelStep(s, s1) && ForkStep(s1, s2, r, child)
    ensures child !in s.roots
  {}

  /** A failed fork takes from its caller everything the caller had mapped and changes
      nobody else's view. So nobody's view changes exactly when it failed for want of a
      PID or a stack, or the caller maps nothing. */
  lemma FailedForkKeepsViewsIff(s: State, s': State, r: nat, outcome: ForkOutcome)
    requires Inv(s) && r in s.roots && RunsTo(s, ForkEvents(r, outcome), s') && !outcome.Forked?
    ensures Inv(s') && (forall r', q | r' in s.roots && r' != r :: Agree(AllViews(s'), AllViews(s), r', q))
    ensures outcome != NoProcess ==> MapsNothing(s', r)
    ensures ViewsKept(s, s') <==> outcome == NoProcess || MapsNothing(s, r)
  {
    hide Inv, AllViews, RunsTo, ViewsAfter, EagerRun;
    RunEffect(s, ForkEvents(r, outcome), s');
    var v := AllViews(s);
    EagerFork(v, r, outcome);
    if outcome.DescriptorsNotCopied? { ChildIsNew(s, s', r, outcome.child); }
    forall r': nat, q: seq<nat> | r' in s.roots
      ensures (r', q) in AllViews(s') <==> (r', q) in v && (outcome == NoProcess || r' != r)
      ensures (r', q) in AllViews(s') ==> AllViews(s')[(r', q)] == v[(r', q)]
    {
      FailedAt(v, r, outcome, r', q);
    }
    if ViewsKept(s, s') && outcome != NoProcess {
      forall q: seq<nat> ensures (r, q) !in v { assert Agree(AllViews(s'), v, r, q); }
    }
  }
}

/**
 The process table: PIDs, the circular run list, and the life of a process from
 fork over exit to the status query that reaps it. Each operation is one atomic
 step; a register state is an opaque number.
 */
module Processes {
  import opened Basics
  import opened Words
  import opened PhysMemory
  import opened RunList

  const PID_MAX: nat := 65536
  /** The PIDs whose bits start-up clears. */
  const CLEARED: nat := PID_MAX / 8

  /** What a status query writes to its buffer. */
  datatype Report = Nothing | Report(returnCode: int, status: int)

  class Process {
    var state: nat
    var next: Process?
    var prev: Process?
    var pid: nat
    var ppid: nat
    var dead: nat
    var returnCode: int
    var status: int

    constructor ()
      ensures next == null && prev == null
      ensures state == 0 && pid == 0 && ppid == 0 && dead == 0 && returnCode == 0 && status == 0
    {
      state, next, prev, pid, ppid, dead, returnCode, status := 0, null, null, 0, 0, 0, 0, 0;
    }
  }

  lemma OnlyEntry(table: seq<Process>, p: nat)
    requires Distinct(table)
    ensures p < |table| ==> forall q: nat :: q < |table| && q != p ==> table[q] != table[p]
  {}

  lemma OnlyPlace(r: seq<nat>, i: nat)
    requires Distinct(r)
    ensures i < |r| ==> forall j: nat :: j < |r| && j != i ==> r[j] != r[i]
  {}

  function Successor(r: seq<nat>, i: nat): nat
    requires i < |r|
  {
    if i + 1 < |r| then r[i + 1] else r[0]
  }

  function Predecessor(r: seq<nat>, i: nat): nat
    requires i < |r|
  {
    if i == 0 then r[|r| - 1] else r[i - 1]
  }

  /** The table entries of these PIDs form one ring, in this order. */
  ghost predicate Chained(table: seq<Process>, r: seq<nat>)
    reads table`next, table`prev
  {
    && r != [] && Distinct(r) && (forall i: nat :: i < |r| ==> r[i] < |table|)
    && (forall i: nat {:trigger table[r[i]].next} :: i < |r| ==> table[r[i]].next == table[Successor(r, i)])
    && (forall i: nat {:trigger table[r[i]].prev} :: i < |r| ==> table[r[i]].prev == table[Predecessor(r, i)])
  }

  lemma RotateChained(table: seq<Process>, r: seq<nat>)
    requires Chained(table, r)
    ensures Chained(table, Rotate(r))
  {
    RotateKeeps(r);
    var t := Rotate(r);
    forall i: nat | i < |t|
      ensures table[t[i]].next == table[Successor(t, i)] && table[t[i]].prev == table[Predecessor(t, i)]
    {
      var k := if i + 1 < |r| then i + 1 else 0;
      assert t[i] == r[k] && table[r[k]].next == table[Successor(r, k)] && table[r[k]].prev == table[Predecessor(r, k)];
    }
  }

  /** Neighbours in a ring after place i is taken out. */
  lemma CutMoves(r: seq<nat>, i: nat, j: nat)
    requires Distinct(r) && i < |r| && j < |r| - 1
    ensures var t := Removed(r, i); var k := if j < i then j else j + 1;
      && |t| == |r| - 1 && t[j] == r[k]
      && Successor(t, j) == (if r[k] == Predecessor(r, i) then Successor(r, i) else Successor(r, k))
      && Predecessor(t, j) == if r[k] == Successor(r, i) then Predecessor(r, i) else Predecessor(r, k)
  {
    var t := Removed(r, i);
    assert forall m: nat :: m < |t| ==> t[m] == if m < i then r[m] else r[m + 1];
    OnlyPlace(r, if i == 0 then |r| - 1 else i - 1);
    OnlyPlace(r, if i + 1 < |r| then i + 1 else 0);
  }

  lemma RingBounds(r: seq<nat>, n: nat)
    requires forall i: nat :: i < |r| ==> r[i] < n
    ensures forall k: nat {:trigger Successor(r, k)} :: k < |r| ==> Successor(r, k) < n
    ensures forall k: nat {:trigger Predecessor(r, k)} :: k < |r| ==> Predecessor(r, k) < n
  {}

  lemma ChainAt(table: seq<Process>, r: seq<nat>, i: nat)
    requires Chained(table, r) && i < |r|
    ensures r[i] < |table| && Successor(r, i) < |table| && Predecessor(r, i) < |table|
    ensures table[r[i]].next == table[Successor(r, i)] && table[r[i]].prev == table[Predecessor(r, i)]
  {}

  lemma AddIs(r: seq<nat>, p: nat, r': seq<nat>)
    requires Moves(r, Add(p), r')
    ensures r' != [] && r'[0] == r[0] && forall q: nat :: q in r' <==> q in r || q == p
  {}

  lemma SuspendDrops(r: seq<nat>, p: nat, stack: bool, r': seq<nat>)
    requires WellFormed(r) && Moves(r, Suspend(p, stack), r')
    ensures forall q: nat :: q in r' <==> q in r && q != p
  {
    var i: nat :| i < |r| && |r| > 1 && r[i] == p && p != IDLE
      && r' == if i == 0 then SkipIdle(Removed(r, 0), stack) else Removed(r, i);
    RemoveKeeps(r, i);
    SkipKeeps(Removed(r, i), stack);
  }

  /** A switch turns the ring by one place, or by two to pass over the idle process. */
  lemma TurnsOnce(r: seq<nat>, stack: bool, r': seq<nat>)
    requires WellFormed(r) && Moves(r, Move.Schedule(stack), r')
    ensures Turned(r, r', if Successor(r, 0) == IDLE && !stack then 2 else 1)
    ensures !stack && r != [IDLE] ==> r'[0] != IDLE
  {
    hide *;
    FirstIsAlone(r);
    ScheduleIff(r, stack, r');
    TurnIs(r, stack);
    if !stack { OthersBeforeIdle(r, r'); }
  }

  lemma TurnIs(r: seq<nat>, stack: bool)
    requires r != []
    ensures Turn(r, stack) == if Successor(r, 0) == IDLE && !stack then 2 else 1
  {
    assert 1 % |r| == if 1 < |r| then 1 else 0;
  }

  lemma OthersBeforeIdle(r: seq<nat>, r': seq<nat>)
    requires WellFormed(r) && Moves(r, Move.Schedule(false), r')
    ensures r' != [] && (r'[0] == IDLE ==> r == [IDLE])
  {
    hide Moves, Turned, Distinct, WellFormed, SkipIdle, Rotate, Turn;
    FirstIsAlone(r);
    IdleWaits(r, Move.Schedule(false), r');
    if r' == [IDLE] {
      ScheduleIff(r, false, r');
      TurnedSize(r, r', Turn(r, false));
    }
  }

  lemma TurnedSize(r: seq<nat>, r': seq<nat>, n: nat)
    requires Turned(r, r', n)
    ensures |r'| == |r|
  {}

  lemma SuspendMoves(r: seq<nat>, i: nat, stack: bool, r': seq<nat>)
    requires WellFormed(r) && i < |r| && r[i] != IDLE && |r| > 1
    requires r' == if i == 0 then SkipIdle(Removed(r, 0), stack) else Removed(r, i)
    ensures Moves(r, Suspend(r[i], stack), r') && TakenOut(r, r[i], stack, r')
  {
    SuspendIff(r, r[i], stack, r');
  }

  lemma HeadTaken(r: seq<nat>, p: nat, r': seq<nat>)
    requires TakenOut(r, p, true, r') && r[0] == p
    ensures |r| > 1 && r' == r[1..]
  {}

  /** The idle process is never alone in being removed. */
  lemma OthersThan(r: seq<nat>, i: nat)
    requires WellFormed(r) && i < |r| && r[i] != IDLE
    ensures |r| > 1
  {}

  lemma JoinKeeps(r: seq<nat>, p: nat)
    requires WellFormed(r) && p !in r
    ensures WellFormed(r + [p])
  {}

  lemma SkipKeeps(r: seq<nat>, stack: bool)
    requires r != [] && Distinct(r)
    ensures forall p: nat :: p in SkipIdle(r, stack) <==> p in r
  {
    RotateKeeps(r);
  }

  class ProcessManager {
    var schedListHead: Process
    const idleProcess: Process
    const processData: seq<Process>
    const pidBitmap: array<bv64>
    var lastCheckedIndex: nat
    /** How many stacks the pool holds. */
    var freeStacks: nat
    /** The run list, running process first. */
    ghost var ring: seq<nat>
    /** The PIDs allocated and not yet freed. */
    ghost var held: set<nat>

    ghost predicate Table() {
      |processData| == PID_MAX && Distinct(processData) && idleProcess == processData[IDLE]
    }

    /** The set bits are exactly the PIDs held; the words below the hint are full. */
    ghost predicate Bits()
      reads `held, `lastCheckedIndex, pidBitmap
    {
      && BITS * pidBitmap.Length == PID_MAX && lastCheckedIndex <= pidBitmap.Length
      && (forall k: nat :: k < lastCheckedIndex ==> pidBitmap[k] == ALL_ONES)
      && (forall p: nat :: p in held ==> p < PID_MAX)
      && (forall p: nat :: p < PID_MAX ==> (p in held <==> BitIn(pidBitmap[..], p)))
    }

    ghost predicate Ring()
      reads `ring, `schedListHead, processData`next, processData`prev
    {
      Table() && WellFormed(ring) && Chained(processData, ring) && schedListHead == processData[ring[0]]
    }

    /** Whoever runs or waits to run is alive under a PID of its own, and whoever can
        be reaped still holds one. */
    ghost predicate Lives()
      reads `ring, `held, processData`pid, processData`ppid, processData`dead
      requires Table()
    {
      && (forall p: nat :: p in ring ==>
        p < PID_MAX && p in held && processData[p].pid == p && processData[p].dead == 0)
      && (forall p: nat :: p < PID_MAX && processData[p].dead == 1 && processData[p].ppid != IDLE ==> p in held)
    }

    ghost predicate Valid()
      reads this, processData, pidBitmap
    {
      Bits() && Ring() && Lives()
    }

    /** Nothing in the table looks like a child that died under a PID nobody holds. */
    ghost predicate NoGhosts()
      reads `held, processData`ppid, processData`dead
      requires Table()
    {
      && processData[IDLE].dead == 0
      && forall p: nat :: p < PID_MAX && processData[p].dead == 1 && processData[p].ppid != IDLE ==> p in held
    }

    /** Start-up: the idle process alone, in a table that is not cleared. The bitmap is cleared
        a byte for each of its words, which is the first eighth; `words` is what it held
        before, and whatever bits are set further up stay taken. */
    constructor (processData: seq<Process>, words: seq<bv64>)
      requires |processData| == PID_MAX && Distinct(processData) && BITS * |words| == PID_MAX
      modifies processData
      ensures Bits() && Ring() && ring == [IDLE] && this.processData == processData && fresh(pidBitmap)
      ensures freeStacks == 0
      ensures Valid() <==> NoGhosts()
      ensures forall p: nat :: p in held <==> p == IDLE || (CLEARED <= p < PID_MAX && BitIn(words, p))
    {
      this.processData, idleProcess, schedListHead := processData, processData[IDLE], processData[IDLE];
      pidBitmap := new bv64[|words|](i requires 0 <= i < |words| => if i < |words| / 8 then 0 else words[i]);
      lastCheckedIndex, freeStacks, ring := 0, 0, [IDLE];
      held := set p: nat | p < PID_MAX && CLEARED <= p && BitIn(words, p);
      new;
      hide *;
      StartIdle(words);
    }

    method StartIdle(ghost words: seq<bv64>)
      requires Table() && ring == [IDLE] && schedListHead == idleProcess && LeftOver(words) && lastCheckedIndex == 0
      modifies `lastCheckedIndex, `held, pidBitmap, processData`next, processData`prev, processData`pid
      ensures Bits() && Ring() && ring == [IDLE] && (Lives() <==> NoGhosts())
      ensures forall p: nat :: p in held <==>
        p == IDLE || (BITS * |words| == PID_MAX && CLEARED <= p < PID_MAX && BitIn(words, p))
    {
      hide Distinct, BitIn, Bits, Ring, Lives, LeftOver;
      MostlyClear(words);
      assert IDLE !in held;
      var initPid := NewProcess();
      assert initPid == IDLE;
      processData[initPid].next := processData[initPid];
      processData[initPid].prev := processData[initPid];
      processData[initPid].pid := initPid;
      Alone();
    }

    /** The cleared bitmap and the PIDs taken by what was not cleared. */
    ghost predicate LeftOver(words: seq<bv64>)
      reads `held, pidBitmap
    {
      && BITS * |words| == PID_MAX && pidBitmap.Length == |words|
      && (forall k: nat :: k < |words| ==> pidBitmap[k] == if k < |words| / 8 then 0 else words[k])
      && (forall p: nat :: p in held <==> CLEARED <= p < PID_MAX && BitIn(words, p))
    }

    lemma Alone()
      requires Table() && ring == [IDLE] && IDLE in held && schedListHead == idleProcess
      requires idleProcess.next == idleProcess && idleProcess.prev == idleProcess && idleProcess.pid == IDLE
      ensures Ring() && (Lives() <==> NoGhosts())
    {}

    lemma MostlyClear(words: seq<bv64>)
      requires LeftOver(words) && lastCheckedIndex == 0
      ensures Bits() && BITS * |words| == PID_MAX
      ensures forall p: nat :: p in held <==> CLEARED <= p < PID_MAX && BitIn(words, p)
      ensures IDLE !in held
    {
      forall p: nat | p < PID_MAX ensures p in held <==> BitIn(pidBitmap[..], p) { ZeroBits(p % BITS); }
    }

    /** The running process. */
    lemma Running()
      requires Ring() && Lives()
      ensures Table() && ring != [] && ring[0] < PID_MAX && schedListHead == processData[ring[0]]
        && schedListHead.pid == ring[0]
    {}

    // ------------------------------------------------------------------- PIDs

    /** The lowest free PID, whatever the hint says; PID_MAX exactly when none is free. */
    method NewProcess() returns (pid: nat)
      requires Bits()
      modifies `lastCheckedIndex, `held, pidBitmap
      ensures Bits() && pid <= PID_MAX
      ensures forall q: nat :: q < pid ==> q in old(held)
      ensures pid == PID_MAX ==> held == old(held)
      ensures pid < PID_MAX ==> pid !in old(held) && held == old(held) + {pid}
    {
      ghost var words := pidBitmap[..];
      while lastCheckedIndex < pidBitmap.Length
        invariant lastCheckedIndex <= pidBitmap.Length && held == old(held) && pidBitmap[..] == words
        invariant forall k: nat :: k < lastCheckedIndex ==> pidBitmap[k] == ALL_ONES
      {
        if pidBitmap[lastCheckedIndex] == ALL_ONES {
          lastCheckedIndex := lastCheckedIndex + 1;
          continue;
        }
        FullWord(pidBitmap[lastCheckedIndex]);
        var bit := LowestClear(pidBitmap[lastCheckedIndex], 0);
        LowestFree(words, lastCheckedIndex, bit);
        pidBitmap[lastCheckedIndex] := SetBit(pidBitmap[lastCheckedIndex], bit);
        pid := bit + lastCheckedIndex * 64;
        held := held + {pid};
        assert pidBitmap[..] == words[lastCheckedIndex := SetBit(words[lastCheckedIndex], bit)];
        forall p: nat | p < PID_MAX ensures BitIn(pidBitmap[..], p) <==> p == pid || BitIn(words, p) {
          BitInSet(words, lastCheckedIndex, bit, p);
        }
        return;
      }
      AllFull(words, PID_MAX);
      pid := PID_MAX;
    }

    /** Frees a PID. That it is held when its callers free it is their promise. */
    method FreePid(pid: nat)
      requires Bits() && pid < PID_MAX
      modifies `lastCheckedIndex, `held, pidBitmap
      ensures Bits() && held == old(held) - {pid}
    {
      ghost var words := pidBitmap[..];
      var index := pid / 64;
      if index < lastCheckedIndex {
        lastCheckedIndex := index;
      }
      pidBitmap[index] := ClearBit(pidBitmap[index], pid % 64);
      held := held - {pid};
      assert pidBitmap[..] == words[index := ClearBit(words[index], pid % 64)];
      forall p: nat | p < PID_MAX ensures BitIn(pidBitmap[..], p) <==> p != pid && BitIn(words, p) {
        BitInClear(words, index, pid % 64, p);
      }
    }

    // --------------------------------------------------------------- run list

    /** Linking PID p in before the first of the ring. */
    twostate lemma ChainJoined(new r: seq<nat>, new p: nat)
      requires old(Chained(processData, r)) && p < |processData| && p !in r
      requires var first := r[0]; var last := r[|r| - 1];
        && processData[p].next == processData[first] && processData[first].prev == processData[p]
        && processData[p].prev == processData[last] && processData[last].next == processData[p]
        && (forall q: nat :: q < |processData| && q != p && q != first ==>
          processData[q].prev == old(processData[q].prev))
        && (forall q: nat :: q < |processData| && q != p && q != last ==>
          processData[q].next == old(processData[q].next))
      ensures Chained(processData, r + [p])
    {
      var t := r + [p];
      forall i: nat | i < |t|
        ensures processData[t[i]].next == processData[Successor(t, i)]
          && processData[t[i]].prev == processData[Predecessor(t, i)]
      {
        if i < |r| {
          assert t[i] == r[i];
          assert old(processData[r[i]].next) == processData[Successor(r, i)]
            && old(processData[r[i]].prev) == processData[Predecessor(r, i)];
        }
      }
    }

    /** Taking place i out of the ring. */
    twostate lemma ChainCut(new r: seq<nat>, new i: nat)
      requires old(Chained(processData, r)) && i < |r| && |r| > 1
      requires var s := Successor(r, i); var p := Predecessor(r, i);
        && p < |processData| && s < |processData|
        && processData[p].next == processData[s] && processData[s].prev == processData[p]
        && (forall q: nat :: q < |processData| && q != s ==> processData[q].prev == old(processData[q].prev))
        && (forall q: nat :: q < |processData| && q != p ==> processData[q].next == old(processData[q].next))
      ensures Chained(processData, Removed(r, i))
    {
      var t := Removed(r, i);
      RemoveKeeps(r, i);
      RingBounds(r, |processData|);
      hide Distinct, Successor, Predecessor, Removed;
      forall j: nat | j < |r| - 1
        ensures j < |t| && t[j] < |processData| && Successor(t, j) < |processData| && Predecessor(t, j) < |processData|
        ensures processData[t[j]].next == processData[Successor(t, j)]
        ensures processData[t[j]].prev == processData[Predecessor(t, j)]
      {
        var k := if j < i then j else j + 1;
        CutMoves(r, i, j);
        assert old(processData[r[k]].next) == processData[Successor(r, k)];
        assert old(processData[r[k]].prev) == processData[Predecessor(r, k)];
      }
      CutMoves(r, i, 0);
    }

    /** The register state of no process but p has changed. */
    twostate predicate OthersKeepState(p: Process)
      reads processData`state
    {
      forall q | q in processData && q != p :: q.state == old(q.state)
    }

    /** Switches from the head to its successor. `list` is the ring that starts with
        that successor; the head itself may just have been unlinked from it. */
    method Schedule(frame: nat, ghost list: seq<nat>) returns (frame': nat, ghost resumed: Process)
      requires Table() && WellFormed(list) && Chained(processData, list) && schedListHead.next == processData[list[0]]
      requires schedListHead in processData
      modifies `schedListHead, `ring, processData`state
      ensures Ring() && ring == SkipIdle(list, freeStacks > 0)
      ensures ring[0] == if list[0] != IDLE || freeStacks > 0 then list[0] else Successor(list, 0)
      ensures ring == if list[0] != IDLE || freeStacks > 0 then list else list[1..] + [list[0]]
      ensures resumed == schedListHead && old(schedListHead).state == frame
      ensures OthersKeepState(old(schedListHead))
      ensures frame' == if resumed == old(schedListHead) then frame else old(resumed.state)
    {
      hide Chained, Distinct;
      RotateChained(processData, list);
      RotateKeeps(list);
      ChainAt(processData, list, 0);
      OnlyEntry(processData, IDLE);
      schedListHead.state := frame;
      schedListHead := schedListHead.next;
      ring := list;
      if schedListHead == idleProcess && !(freeStacks > 0) {
        schedListHead := schedListHead.next;
        ring := Rotate(list);
      }
      frame', resumed := schedListHead.state, schedListHead;
    }

    /** A voluntary or timer switch. */
    method Yield(frame: nat) returns (frame': nat, ghost resumed: Process)
      requires Valid()
      modifies `schedListHead, `ring, processData`state
      ensures Valid() && Moves(old(ring), Move.Schedule(freeStacks > 0), ring)
      ensures Turned(old(ring), ring, if Successor(old(ring), 0) == IDLE && freeStacks == 0 then 2 else 1)
      ensures freeStacks == 0 && old(ring) != [IDLE] ==> ring[0] != IDLE
      ensures resumed == schedListHead && old(schedListHead).state == frame
      ensures OthersKeepState(old(schedListHead))
      ensures frame' == if resumed == old(schedListHead) then frame else old(resumed.state)
    {
      hide Chained, Distinct, SkipIdle, Bits;
      RotateChained(processData, ring);
      RotateKeeps(ring);
      ChainAt(processData, ring, 0);
      forall stack { SkipKeeps(Rotate(ring), stack); }
      ghost var r := ring;
      frame', resumed := Schedule(frame, Rotate(ring));
      TurnsOnce(r, freeStacks > 0, ring);
    }

    method AddToRunList(pid: nat)
      requires Ring() && pid < PID_MAX && pid !in ring
      modifies `ring, processData`next, processData`prev
      ensures Ring() && Moves(old(ring), Add(pid), ring) && ring == old(ring) + [pid]
    {
      hide Chained, Distinct;
      JoinKeeps(ring, pid);
      ChainAt(processData, ring, 0);
      ChainAt(processData, ring, |ring| - 1);
      OnlyEntry(processData, pid);
      OnlyEntry(processData, ring[0]);
      OnlyEntry(processData, ring[|ring| - 1]);
      label Unlinked:
      var head := schedListHead;
      var prev := schedListHead.prev;
      processData[pid].next := head;
      processData[pid].prev := prev;
      head.prev := processData[pid];
      prev.next := processData[pid];
      ChainJoined@Unlinked(ring, pid);
      ring := ring + [pid];
    }

    /** A process other than the idle one leaves the ring; its own links stay. */
    method Unlink(pid: nat, ghost i: nat)
      requires Ring() && i < |ring| && ring[i] == pid && pid != IDLE
      modifies processData`next, processData`prev
      ensures |ring| > 1 && WellFormed(Removed(ring, i)) && Chained(processData, Removed(ring, i))
      ensures if i == 0 then schedListHead.next == processData[Removed(ring, i)[0]] else Removed(ring, i)[0] == ring[0]
    {
      hide Chained, Distinct;
      ChainAt(processData, ring, i);
      ChainAt(processData, ring, 0);
      RemoveKeeps(ring, i);
      OthersThan(ring, i);
      OnlyEntry(processData, Predecessor(ring, i));
      OnlyEntry(processData, Successor(ring, i));
      label Before:
      var proc := processData[pid];
      var prev := proc.prev;
      var next := proc.next;
      prev.next := next;
      next.prev := prev;
      ChainCut@Before(ring, i);
    }

    method SuspendFromRunList(pid: nat, frame: nat) returns (frame': nat)
      requires Ring() && pid in ring && pid != IDLE && forall p: nat :: p in ring ==> processData[p].pid == p
      modifies `schedListHead, `ring, processData`state, processData`next, processData`prev
      ensures Ring() && Moves(old(ring), Suspend(pid, freeStacks > 0), ring)
      ensures TakenOut(old(ring), pid, freeStacks > 0, ring)
      ensures var next := schedListHead;
        if old(ring[0]) == pid then old(schedListHead).state == frame && frame' == old(next.state) else frame' == frame
      ensures OthersKeepState(old(schedListHead))
      ensures old(ring[0]) != pid ==> old(schedListHead).state == old(schedListHead.state)
    {
      hide Chained, Distinct, SkipIdle, Moves, TakenOut, Removed;
      ghost var r := ring;
      ghost var i := Distance(ring, pid);
      frame' := frame;
      ChainAt(processData, ring, 0);
      OnlyEntry(processData, pid);
      Unlink(pid, i);
      if pid == schedListHead.pid {
        ghost var resumed;
        frame', resumed := Schedule(frame, Removed(ring, i));
      } else {
        ring := Removed(ring, i);
      }
      SuspendMoves(r, i, freeStacks > 0, ring);
      SuspendDrops(r, pid, freeStacks > 0, ring);
      ChainAt(processData, ring, 0);
      assert ring[0] in ring && ring[0] != pid;
    }

    // ------------------------------------------------- fork, exit, status query

    /** `setup`: a stack from the pool, or else a new one, and a user allocator if asked
        for. A stack without an allocator goes to the pool. */
    method SetUp(stackMapped: bool, createUserAllocator: bool, allocatorMade: bool) returns (done: bool)
      modifies `freeStacks
      ensures done <==> (old(freeStacks) > 0 || stackMapped) && (createUserAllocator ==> allocatorMade)
      ensures done ==> freeStacks == if old(freeStacks) > 0 then old(freeStacks) - 1 else 0
      ensures !done ==> freeStacks == if old(freeStacks) == 0 && stackMapped then 1 else old(freeStacks)
    {
      if freeStacks > 0 {
        freeStacks := freeStacks - 1;
      } else if !stackMapped {
        return false;
      }
      if createUserAllocator && !allocatorMade {
        freeStacks := freeStacks + 1;
        return false;
      }
      done := true;
    }

    /** The child's entry: its own PID, the running process for a parent, alive. */
    method Fill(pid: nat)
      requires Table() && Ring() && Lives() && pid < PID_MAX && pid in held && pid !in ring
      modifies processData`pid, processData`ppid, processData`dead
      ensures Lives() && processData[pid].pid == pid && processData[pid].ppid == ring[0] && processData[pid].dead == 0
      ensures forall q: nat :: q < PID_MAX && q != pid ==>
        (processData[q].pid == old(processData[q].pid) && processData[q].ppid == old(processData[q].ppid)
          && processData[q].dead == old(processData[q].dead))
    {
      Running();
      OnlyEntry(processData, pid);
      hide Distinct, Ring;
      var newProc := processData[pid];
      newProc.pid := pid;
      newProc.ppid := schedListHead.pid;
      newProc.dead := 0;
    }

    /** The failure arms of fork: the PID goes back, and the stack if it had one. */
    method GiveUp(pid: nat, hasStack: bool)
      requires Table() && Bits() && Lives() && pid < PID_MAX && pid in held && pid !in ring
      requires processData[pid].dead == 1 ==> processData[pid].ppid == IDLE
      modifies `lastCheckedIndex, `held, pidBitmap, `freeStacks
      ensures Bits() && Lives() && held == old(held) - {pid}
      ensures freeStacks == old(freeStacks) + if hasStack then 1 else 0
    {
      hide Bits, Distinct;
      FreePid(pid);
      if hasStack {
        freeStacks := freeStacks + 1;
      }
    }

    /** Between the steps of a fork: the new process has its PID and is not in the run
        list yet. */
    ghost predicate Forking(pid: nat)
      reads this, processData, pidBitmap
    {
      && Valid() && pid < PID_MAX && pid in held && pid !in ring
      && (processData[pid].dead == 1 ==> processData[pid].ppid == IDLE)
    }

    /** A living child of the running process. */
    ghost predicate IsChild(pid: nat)
      reads `ring, processData`ppid, processData`dead
    {
      pid < |processData| && ring != [] && processData[pid].ppid == ring[0] && processData[pid].dead == 0
    }

    ghost predicate PidFree()
      reads `held
    {
      exists q: nat :: q < PID_MAX && q !in held
    }

    /** The first step of fork: the lowest free PID, PID_MAX when there is none. */
    method TakePid() returns (pid: nat)
      requires Valid()
      modifies `lastCheckedIndex, `held, pidBitmap
      ensures pid != PID_MAX <==> old(PidFree())
      ensures pid == PID_MAX ==> Valid() && held == old(held)
      ensures pid != PID_MAX ==> Forking(pid) && pid !in old(held) && held == old(held) + {pid}
      ensures pid != PID_MAX ==> forall q: nat :: q < pid ==> q in old(held)
    {
      hide Distinct, Ring, Bits, Lives;
      Running();
      FreeEntries();
      pid := NewProcess();
      if pid != PID_MAX { LivesWith(pid); }
    }

    /** The second step: a stack. Without one the PID goes back. */
    method TakeStack(pid: nat, stackMapped: bool) returns (done: bool)
      requires Forking(pid)
      modifies `lastCheckedIndex, `held, pidBitmap, `freeStacks
      ensures done <==> old(freeStacks) > 0 || stackMapped
      ensures done ==> Forking(pid) && held == old(held)
      ensures done ==> freeStacks == if old(freeStacks) > 0 then old(freeStacks) - 1 else 0
      ensures !done ==> Valid() && held == old(held) - {pid} && freeStacks == old(freeStacks)
    {
      hide Distinct, Ring, Bits, Lives;
      Running();
      done := SetUp(stackMapped, false, false);
      if !done { GiveUp(pid, false); }
    }

    /** The first two steps of fork, a PID and a stack; PID_MAX when either is not to be
        had, and then nothing is taken. */
    method BeginFork(stackMapped: bool) returns (pid: nat)
      requires Valid()
      modifies `lastCheckedIndex, `held, pidBitmap, `freeStacks
      ensures pid != PID_MAX <==> old(PidFree()) && (old(freeStacks) > 0 || stackMapped)
      ensures pid == PID_MAX ==> Valid() && held == old(held) && freeStacks == old(freeStacks)
      ensures pid != PID_MAX ==> Forking(pid) && pid !in old(held) && held == old(held) + {pid}
      ensures pid != PID_MAX ==> forall q: nat :: q < pid ==> q in old(held)
      ensures pid != PID_MAX ==> freeStacks == if old(freeStacks) > 0 then old(freeStacks) - 1 else 0
    {
      hide Valid, Forking;
      pid := TakePid();
      if pid == PID_MAX { return; }
      PidInRange(pid);
      var stack := TakeStack(pid, stackMapped);
      if !stack { pid := PID_MAX; }
    }

    lemma PidInRange(pid: nat)
      requires Forking(pid)
      ensures pid < PID_MAX
    {}

    /** The child's entry, once its allocator is there. */
    method FillChild(pid: nat)
      requires Forking(pid)
      modifies processData`pid, processData`ppid, processData`dead
      ensures Forking(pid) && processData[pid].pid == pid && IsChild(pid)
    {
      hide Distinct, Ring, Bits, Lives;
      Running();
      Fill(pid);
    }

    /** A fork that fails after it has a PID and a stack gives both back. */
    method AbandonFork(pid: nat)
      requires Forking(pid)
      modifies `lastCheckedIndex, `held, pidBitmap, `freeStacks
      ensures Valid() && held == old(held) - {pid} && freeStacks == old(freeStacks) + 1
    {
      hide Distinct, Ring, Bits, Lives;
      Running();
      GiveUp(pid, true);
    }

    /** The last step: the child joins the run list. */
    method FinishFork(pid: nat)
      requires Forking(pid) && processData[pid].pid == pid && IsChild(pid)
      modifies `ring, processData`next, processData`prev
      ensures Valid() && Moves(old(ring), Add(pid), ring) && IsChild(pid) && schedListHead == old(schedListHead)
      ensures ring == old(ring) + [pid]
    {
      hide Distinct, Ring, Bits, Moves, Lives;
      Running();
      ghost var r := ring;
      AddToRunList(pid);
      AddIs(r, pid, ring);
      JoinLives(pid);
    }

    twostate lemma JoinLives(p: nat)
      requires Table() && p < PID_MAX && old(Lives()) && held == old(held) && p in held
      requires forall q: nat :: q < PID_MAX ==>
        (processData[q].pid == old(processData[q].pid) && processData[q].ppid == old(processData[q].ppid)
          && processData[q].dead == old(processData[q].dead))
      requires forall q: nat :: q in ring ==> q in old(ring) || q == p
      requires processData[p].pid == p && processData[p].dead == 0
      ensures Lives()
    {}

    /** Fork: false and no process when any step fails, else a child of the running
        process under the lowest free PID, last in the run list. The parameters say
        which of the allocations succeed. */
    method Fork(stackMapped: bool, allocatorCopied: bool, tableCloned: bool, descriptorsCopied: bool) returns (rax: int)
      requires Valid()
      modifies this, pidBitmap, processData
      ensures Valid() && schedListHead == old(schedListHead)
      ensures rax == -1 ==> held == old(held) && ring == old(ring)
      ensures rax == -1 || 0 <= rax < PID_MAX
      ensures rax != -1 ==> rax !in old(held) && held == old(held) + {rax}
      ensures rax != -1 ==> forall q: nat :: q < rax ==> q in old(held)
      ensures rax != -1 ==> Moves(old(ring), Add(rax), ring) && ring == old(ring) + [rax]
      ensures freeStacks == if rax != -1 then (if old(freeStacks) > 0 then old(freeStacks) - 1 else 0)
                            else if old(PidFree()) && old(freeStacks) == 0 && stackMapped then 1 else old(freeStacks)
      ensures rax != -1 ==> IsChild(rax)
      ensures rax != -1 <==>
        old(PidFree()) && (old(freeStacks) > 0 || stackMapped) && allocatorCopied && tableCloned && descriptorsCopied
    {
      hide Distinct, Ring, Bits, Moves, Lives;
      Running();
      var pid := BeginFork(stackMapped);
      if pid == PID_MAX {
        return -1;
      }
      if !allocatorCopied {
        AbandonFork(pid);
        return -1;
      }
      FillChild(pid);
      if !tableCloned {
        AbandonFork(pid);
        return -1;
      }
      if !descriptorsCopied {
        AbandonFork(pid);
        return -1;
      }
      FinishFork(pid);
      AddIs(old(ring), pid, ring);
      return pid;
    }

    /** The running process ends: it leaves the run list for good, keeps its PID and its
        return code until it is reaped, gives back its stack, and someone else runs. */
    method Exit(frame: nat, returnCode: int, status: int) returns (frame': nat)
      requires Valid() && ring[0] != IDLE
      modifies this, processData
      ensures Valid() && held == old(held)
      ensures Moves(old(ring), Suspend(old(ring[0]), true), ring) && old(ring[0]) !in ring
      ensures processData[old(ring[0])].dead == 1 && processData[old(ring[0])].ppid == old(processData[ring[0]].ppid)
      ensures processData[old(ring[0])].returnCode == returnCode && processData[old(ring[0])].status == status
      ensures freeStacks == old(freeStacks) + 1
      ensures |old(ring)| > 1 && ring == old(ring)[1..]
      ensures var next := schedListHead; frame' == old(next.state)
      ensures OthersKeepState(old(schedListHead))
    {
      hide Distinct, Ring, Bits, Moves, TakenOut;
      Running();
      OnlyEntry(processData, ring[0]);
      schedListHead.returnCode := returnCode;
      schedListHead.status := status;
      var pid := schedListHead.pid;
      schedListHead.dead := 1;
      freeStacks := freeStacks + 1;
      ghost var r := ring;
      WasFormed();
      frame' := SuspendFromRunList(pid, frame);
      SuspendDrops(r, pid, freeStacks > 0, ring);
      HeadTaken(r, pid, ring);
    }

    lemma FreeEntries()
      requires Table() && Lives()
      ensures forall p: nat :: p < PID_MAX && p !in held ==>
        (p !in ring && (processData[p].dead == 1 ==> processData[p].ppid == IDLE))
    {}

    twostate lemma LivesWith(p: nat)
      requires Table() && p < PID_MAX && old(Lives()) && old(held) <= held
      requires forall q: nat :: q < PID_MAX && q != p ==>
        (processData[q].pid == old(processData[q].pid) && processData[q].ppid == old(processData[q].ppid)
          && processData[q].dead == old(processData[q].dead))
      requires forall q: nat :: q in ring ==> q in old(ring) || q == p
      requires p !in old(held) && (processData[p].dead == 1 ==> processData[p].ppid == IDLE || p in held)
      requires p in ring ==> p in held && processData[p].pid == p && processData[p].dead == 0
      ensures Lives()
    {}

    lemma WasFormed()
      requires Ring()
      ensures WellFormed(ring)
    {}

    /** The status query by the running process. A dead child's PID is freed with the
        answer, and unless the caller is the idle process it was held until then. */
    method GetProcStatus(pid: nat, hasBuffer: bool, bufferAccepted: bool) returns (status: int, buf: Report)
      requires Valid()
      modifies `lastCheckedIndex, `held, pidBitmap, processData`ppid
      ensures Valid()
      ensures var child := pid < PID_MAX && old(processData[pid].ppid) == ring[0];
        var reaped := child && processData[pid].dead == 1 && (!hasBuffer || bufferAccepted);
        && (status == -1 <==> !child || (processData[pid].dead == 1 && hasBuffer && !bufferAccepted))
        && (status != -1 ==> status == processData[pid].dead)
        && (reaped ==> held == old(held) - {pid} && processData[pid].ppid == 0)
        && (reaped && ring[0] != IDLE ==> pid in old(held))
        && (!reaped ==> held == old(held))
        && buf == (if reaped && hasBuffer then Report(processData[pid].returnCode, processData[pid].status)
          else Nothing)
        && forall p: nat :: p < PID_MAX && (p != pid || !reaped) ==> processData[p].ppid == old(processData[p].ppid)
    {
      hide Distinct, Ring, Bits;
      Running();
      if pid >= PID_MAX {
        return -1, Nothing;
      }
      OnlyEntry(processData, pid);
      buf := Nothing;
      var proc := processData[pid];
      if proc.ppid != schedListHead.pid {
        return -1, Nothing;
      }
      var dead := proc.dead;
      if dead == 1 {
        if hasBuffer {
          if !bufferAccepted {
            return -1, Nothing;
          }
          buf := Report(proc.returnCode, proc.status);
        }
        proc.ppid := 0;
        FreePid(pid);
      }
      status := dead;
    }

    /** Parent 0 stands both for the idle process and for a reaped child, so were the
        idle process ever to ask, it would free the PID of a dead child again and
        again. It makes no system calls. */
    method IdleReapsAgain(pid: nat) returns (first: int, second: int, ghost between: set<nat>)
      requires Valid() && ring[0] == IDLE
      requires pid < PID_MAX && processData[pid].ppid == IDLE && processData[pid].dead == 1
      modifies `lastCheckedIndex, `held, pidBitmap, processData`ppid
      ensures first == 1 && second == 1 && pid !in between && held == between
    {
      hide Bits;
      var buf;
      first, buf := GetProcStatus(pid, false, false);
      between := held;
      second, buf := GetProcStatus(pid, false, false);
    }
  }
}

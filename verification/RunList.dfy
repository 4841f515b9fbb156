/**
 The run list as a value: the PIDs in the order they will run, the running one
 first. Waiting times are statements about this order.
 */
module RunList {
  import opened Basics

  /** The kernel's own process, which runs when nothing else does. */
  const IDLE: nat := 0

  ghost predicate WellFormed(r: seq<nat>) {
    Distinct(r) && IDLE in r
  }

  function Rotate(r: seq<nat>): seq<nat>
    requires r != []
  {
    r[1..] + [r[0]]
  }

  /** The idle process is passed over while there is no stack for it to free. */
  function SkipIdle(r: seq<nat>, stackAvailable: bool): seq<nat>
    requires r != []
  {
    if r[0] == IDLE && !stackAvailable then Rotate(r) else r
  }

  function Removed(r: seq<nat>, i: nat): seq<nat>
    requires i < |r|
  {
    r[..i] + r[i + 1..]
  }

  datatype Move =
    | Schedule(stackAvailable: bool)
    | Add(pid: nat)
    | Suspend(pid: nat, stackAvailable: bool)

  /** What a scheduler operation does to the order. Suspending the running process
      schedules at once. */
  ghost predicate Moves(r: seq<nat>, m: Move, r': seq<nat>) {
    r != [] &&
    match m
    case Schedule(stack) => r' == SkipIdle(Rotate(r), stack)
    case Add(pid) => pid !in r && r' == r + [pid]
    case Suspend(pid, stack) =>
      exists i: nat :: i < |r| && |r| > 1 && r[i] == pid && pid != IDLE
        && r' == if i == 0 then SkipIdle(Removed(r, 0), stack) else Removed(r, i)
  }

  lemma RotateKeeps(r: seq<nat>)
    requires r != [] && Distinct(r)
    ensures Distinct(Rotate(r)) && |Rotate(r)| == |r|
    ensures forall p :: p in r <==> p in Rotate(r)
  {
    assert r == [r[0]] + r[1..];
  }

  lemma RemoveKeeps(r: seq<nat>, i: nat)
    requires i < |r| && Distinct(r)
    ensures Distinct(Removed(r, i))
    ensures forall p :: p in Removed(r, i) <==> p in r && p != r[i]
  {
    assert r == r[..i] + [r[i]] + r[i + 1..];
    forall p: nat | p in r && p != r[i] ensures p in Removed(r, i) {
      var j: nat :| j < |r| && r[j] == p;
      assert p == Removed(r, i)[if j < i then j else j - 1];
    }
  }

  lemma MoveKeepsForm(r: seq<nat>, m: Move, r': seq<nat>)
    requires WellFormed(r) && Moves(r, m, r')
    ensures WellFormed(r')
  {
    RotateKeeps(r);
    match m
    case Schedule(stack) =>
      RotateKeeps(Rotate(r));
    case Add(pid) =>
      assert r'[|r|] == pid;
    case Suspend(pid, stack) =>
      var i: nat :| i < |r| && |r| > 1 && r[i] == pid && pid != IDLE
        && r' == if i == 0 then SkipIdle(Removed(r, 0), stack) else Removed(r, i);
      RemoveKeeps(r, i);
      RotateKeeps(Removed(r, i));
  }

  // ------------------------------------------------------------ who runs next

  /** r' is r turned by n places. */
  ghost predicate Turned(r: seq<nat>, r': seq<nat>, n: nat) {
    |r'| == |r| && forall i: nat :: i < |r| ==> r'[i] == r[(i + n) % |r|]
  }

  /** How many places a switch turns the ring: one, but two to pass over the idle process,
      which happens exactly if it is next and there is no stack for it to free. */
  function Turn(r: seq<nat>, stackAvailable: bool): nat
    requires r != []
  {
    if r[1 % |r|] == IDLE && !stackAvailable then 2 else 1
  }

  lemma ScheduleIff(r: seq<nat>, stackAvailable: bool, r': seq<nat>)
    requires r != []
    ensures Moves(r, Schedule(stackAvailable), r') <==> Turned(r, r', Turn(r, stackAvailable))
  {
    var n, t := Turn(r, stackAvailable), SkipIdle(Rotate(r), stackAvailable);
    assert Rotate(r)[0] == r[1 % |r|];
    forall i: nat | i < |r| ensures t[i] == r[(i + n) % |r|] { WrapAround(i, n, |r|); }
    if Turned(r, r', n) { assert r' == t; }
  }

  lemma WrapAround(i: nat, n: nat, len: nat)
    requires i < len && 1 <= n <= 2
    ensures (i + n) % len == if i + n < len then i + n else if len == 1 then 0 else i + n - len
  {
    if len > 1 && i + n >= len { Wrapped(i + n, len); }
  }

  lemma Wrapped(x: nat, len: nat)
    requires 0 < len <= x < 2 * len
    ensures x % len == x - len
  {
    assert x / len == 1;
  }

  lemma FirstIsAlone(r: seq<nat>)
    requires WellFormed(r)
    ensures r != [] && (r[0] != IDLE ==> |r| > 1) && forall i: nat :: 0 < i < |r| ==> r[i] != r[0]
  {}

  /** Suspending takes the process out and leaves the order of the others; if it was the
      running one, the next takes over, and the idle process is passed over as ever. */
  ghost predicate TakenOut(r: seq<nat>, p: nat, stackAvailable: bool, r': seq<nat>) {
    && |r| > 1
    && if r[0] == p then r' == if r[1] == IDLE && !stackAvailable then r[2..] + [IDLE] else r[1..]
       else exists i: nat :: i < |r| && r[i] == p && r' == r[..i] + r[i + 1..]
  }

  lemma SuspendIff(r: seq<nat>, p: nat, stackAvailable: bool, r': seq<nat>)
    requires WellFormed(r) && p in r && p != IDLE
    ensures Moves(r, Suspend(p, stackAvailable), r') <==> TakenOut(r, p, stackAvailable, r')
  {
    hide WellFormed;
    FirstIsAlone(r);
    assert Removed(r, 0) == r[1..] && r[1..][1..] == r[2..];
    if r[0] == p {
      assert Moves(r, Suspend(p, stackAvailable), SkipIdle(Removed(r, 0), stackAvailable));
    } else if i: nat :| i < |r| && r[i] == p && r' == r[..i] + r[i + 1..] {
      assert r' == Removed(r, i);
    }
  }

  /** While there is no stack to free, a switch leads to the idle process only if there is
      no other. */
  lemma IdleWaits(r: seq<nat>, m: Move, r': seq<nat>)
    requires WellFormed(r) && Moves(r, m, r') && IsSwitch(r, m) && !m.stackAvailable
    ensures r' != [] && (r'[0] == IDLE <==> r' == [IDLE])
  {
    MoveKeepsForm(r, m, r');
    match m
    case Schedule(_) => RotateKeeps(r);
    case Suspend(_, _) => RemoveKeeps(r, 0);
  }

  // ----------------------------------------------------------- bounded waiting

  /** How many processes run before p. */
  function Distance(r: seq<nat>, p: nat): (d: nat)
    requires p in r
    ensures d < |r| && r[d] == p
    ensures forall j: nat :: j < d ==> r[j] != p
  {
    if r[0] == p then 0 else 1 + Distance(r[1..], p)
  }

  lemma DistanceIs(r: seq<nat>, p: nat, i: nat)
    requires Distinct(r) && i < |r| && r[i] == p
    ensures p in r && Distance(r, p) == i
  {}

  /** Every rotation brings a waiting process nearer; the idle process may be passed
      over, any other may not. */
  lemma RotateNears(r: seq<nat>, p: nat)
    requires Distinct(r) && p in r && r[0] != p
    ensures p in Rotate(r) && Distance(Rotate(r), p) == Distance(r, p) - 1
  {
    RotateKeeps(r);
    DistanceIs(Rotate(r), p, Distance(r, p) - 1);
  }

  lemma SkipNears(r: seq<nat>, p: nat, stack: bool)
    requires Distinct(r) && p in r && (p != IDLE || stack)
    ensures p in SkipIdle(r, stack) && Distance(SkipIdle(r, stack), p) <= Distance(r, p)
  {
    if r[0] == IDLE && !stack { RotateNears(r, p); }
  }

  lemma RemoveNears(r: seq<nat>, i: nat, p: nat)
    requires Distinct(r) && i < |r| && p in r && p != r[i]
    ensures p in Removed(r, i)
    ensures Distance(Removed(r, i), p) == if Distance(r, p) < i then Distance(r, p) else Distance(r, p) - 1
  {
    RemoveKeeps(r, i);
    var d := Distance(r, p);
    DistanceIs(Removed(r, i), p, if d < i then d else d - 1);
  }

  predicate IsSwitch(r: seq<nat>, m: Move) {
    m.Schedule? || (m.Suspend? && r != [] && m.pid == r[0])
  }

  /** One operation: a context switch brings a waiting process strictly nearer, and
      nothing ever pushes it back. This goes for the idle process too, if it is not
      passed over. */
  lemma MoveNears(r: seq<nat>, m: Move, r': seq<nat>, p: nat)
    requires WellFormed(r) && Moves(r, m, r') && p in r && r[0] != p
    requires p == IDLE && IsSwitch(r, m) ==> m.stackAvailable
    requires m.Suspend? ==> m.pid != p
    ensures p in r' && Distance(r', p) + (if IsSwitch(r, m) then 1 else 0) <= Distance(r, p)
  {
    match m
    case Schedule(stack) =>
      RotateKeeps(r);
      RotateNears(r, p);
      SkipNears(Rotate(r), p, stack);
    case Add(pid) =>
      assert r'[Distance(r, p)] == p;
      assert Distinct(r') by { MoveKeepsForm(r, m, r'); }
      DistanceIs(r', p, Distance(r, p));
    case Suspend(pid, stack) =>
      var i: nat :| i < |r| && |r| > 1 && r[i] == pid && pid != IDLE
        && r' == if i == 0 then SkipIdle(Removed(r, 0), stack) else Removed(r, i);
      RemoveKeeps(r, i);
      RemoveNears(r, i, p);
      if i == 0 { SkipNears(Removed(r, 0), p, stack); }
  }

  /** A run of the scheduler: orders[k + 1] is what moves[k] makes of orders[k]. */
  ghost predicate IsRun(orders: seq<seq<nat>>, moves: seq<Move>) {
    && |orders| == |moves| + 1 && WellFormed(orders[0])
    && forall k: nat :: k < |moves| ==> Moves(orders[k], moves[k], orders[k + 1])
  }

  ghost predicate Waits(orders: seq<seq<nat>>, moves: seq<Move>, p: nat, n: nat)
    requires n <= |moves| < |orders|
  {
    && (forall k: nat :: k <= n ==> orders[k] != [] && orders[k][0] != p)
    && (forall k: nat :: k < n ==> moves[k].Suspend? ==> moves[k].pid != p)
  }

  function Switches(orders: seq<seq<nat>>, moves: seq<Move>, n: nat): nat
    requires n <= |moves| < |orders|
  {
    if n == 0 then 0
    else Switches(orders, moves, n - 1) + if IsSwitch(orders[n - 1], moves[n - 1]) then 1 else 0
  }

  lemma {:induction false} RunKeepsForm(orders: seq<seq<nat>>, moves: seq<Move>, n: nat)
    requires IsRun(orders, moves) && n <= |moves|
    ensures WellFormed(orders[n])
  {
    if n > 0 {
      RunKeepsForm(orders, moves, n - 1);
      MoveKeepsForm(orders[n - 1], moves[n - 1], orders[n]);
    }
  }

  /** Bounded waiting: while a process keeps waiting, every context switch uses up
      one of the places ahead of it, so it runs within as many switches as there were
      processes before it, whatever is added, removed or skipped meanwhile. So does the
      idle process as long as there is a stack for it to free. */
  lemma {:induction false} BoundedWaiting(orders: seq<seq<nat>>, moves: seq<Move>, p: nat, n: nat)
    requires IsRun(orders, moves) && n <= |moves| && p in orders[0] && Waits(orders, moves, p, n)
    requires p == IDLE ==> forall k: nat :: k < n && IsSwitch(orders[k], moves[k]) ==> moves[k].stackAvailable
    ensures p in orders[n]
    ensures Switches(orders, moves, n) + Distance(orders[n], p) <= Distance(orders[0], p) < |orders[0]|
    ensures Switches(orders, moves, n) < Distance(orders[0], p)
  {
    hide Moves, WellFormed, Distinct, IsSwitch;
    if n == 0 {
      assert orders[0][0] != p;
    } else {
      RunKeepsForm(orders, moves, n - 1);
      BoundedWaiting(orders, moves, p, n - 1);
      assert orders[n - 1][0] != p && orders[n][0] != p;
      assert Moves(orders[n - 1], moves[n - 1], orders[n]);
      MoveNears(orders[n - 1], moves[n - 1], orders[n], p);
    }
  }
}

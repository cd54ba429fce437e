/** Counters, `schedule` and the counter part of `do_timer` (sched.c:97-144). */
module Scheduler {
  import opened Arithmetic

  const WRAP := 0x1_0000_0000_0000_0000

  /** Counters, which tasks have a page table and are running, who is current. */
  datatype Tasks = Tasks(c: seq<nat>, run: seq<bool>, cur: nat)

  ghost predicate Wf(s: Tasks) {
    |s.c| == |s.run| && s.cur < |s.c| && s.run[s.cur] && forall i :: 0 <= i < |s.c| ==> s.c[i] < WRAP
  }

  /** The first task from `i` on that `schedule` would take; the table's length if none. */
  function First(s: Tasks, i: nat): (r: nat)
    requires |s.c| == |s.run| && s.cur < |s.c| && i <= |s.c|
    ensures i <= r <= |s.c|
    ensures r < |s.c| ==> s.run[r] && r != s.cur && s.c[r] > s.c[s.cur]
    ensures forall j :: i <= j < r && s.run[j] ==> s.c[j] <= s.c[s.cur]
    decreases |s.c| - i
  {
    if i == |s.c| then i
    else if s.run[i] && i != s.cur && s.c[i] > s.c[s.cur] then i
    else First(s, i + 1)
  }

  function Scheduled(s: Tasks): Tasks
    requires |s.c| == |s.run| && s.cur < |s.c|
  {
    var i := First(s, 0);
    if i < |s.c| then s.(cur := i) else s
  }

  /** `counter--` on 64 bits. */
  function Less(c: nat): nat {
    if c == 0 then WRAP - 1 else c - 1
  }

  function Spent(s: Tasks): Tasks
    requires s.cur < |s.c|
  {
    Tasks(s.c[s.cur := Less(s.c[s.cur])], s.run, s.cur)
  }

  /** A timer interrupt from user mode. */
  function Tick(s: Tasks): Tasks
    requires |s.c| == |s.run| && s.cur < |s.c|
  {
    Scheduled(Spent(s))
  }

  function Ticks(s: Tasks, k: nat): (r: Tasks)
    requires Wf(s)
    ensures Wf(r) && r.run == s.run && |r.c| == |s.c|
  {
    if k == 0 then s else Tick(Ticks(s, k - 1))
  }

  class Timer {
    var counter: seq<nat>
    var runnable: seq<bool>
    var current: nat
    var jiffies: nat

    ghost function State(): Tasks
      reads this
    {
      Tasks(counter, runnable, current)
    }

    // schedule
    method Schedule() returns (switched: bool)
      requires Wf(State())
      modifies this`current
      ensures Wf(State()) && State() == Scheduled(old(State()))
      ensures switched <==> exists i :: 0 <= i < |counter| && runnable[i] && counter[i] > counter[old(current)]
      ensures switched ==> FirstAbove(old(State()), current)
      ensures !switched ==> current == old(current)
    {
      var i, next := 0, current;
      while i < |counter|
        invariant 0 <= i <= |counter| && next == current == old(current) && First(State(), 0) == First(State(), i)
      {
        if runnable[i] && i != current && counter[i] > counter[next] {
          next := i;
          break;
        }
        i := i + 1;
      }
      if next != current {
        current := next;
        return true;
      }
      switched := false;
    }

    // do_timer: `user` tells whether the interrupt came from user mode
    method DoTimer(user: bool)
      requires Wf(State())
      modifies this
      ensures Wf(State()) && jiffies == old(jiffies) + 1
      ensures State() == if user then Tick(old(State())) else Spent(old(State()))
    {
      jiffies := jiffies + 1;
      counter := counter[current := Less(counter[current])];
      if user {
        var _ := Schedule();
      }
    }
  }

  // ---- Sums over the runnable tasks --------------------------------------------------------

  ghost predicate AtLeast(s: Tasks, m: nat) {
    |s.c| == |s.run| && forall i :: 0 <= i < |s.c| && s.run[i] ==> s.c[i] >= m
  }

  /** What the first `i` tasks have above `m`. */
  ghost function Excess(s: Tasks, m: nat, i: nat): nat
    requires AtLeast(s, m) && i <= |s.c|
  {
    if i == 0 then 0 else Excess(s, m, i - 1) + if s.run[i - 1] then s.c[i - 1] - m else 0
  }

  /** The ticks left to all runnable tasks together. */
  ghost function Sum(s: Tasks): nat
    requires |s.c| == |s.run|
  {
    Excess(s, 0, |s.c|)
  }

  ghost function Runnable(s: Tasks, i: nat): nat
    requires i <= |s.run|
  {
    if i == 0 then 0 else Runnable(s, i - 1) + if s.run[i - 1] then 1 else 0
  }

  lemma {:induction false} ExcessSpent(s: Tasks, t: Tasks, m: nat, i: nat)
    requires Wf(s) && AtLeast(s, m) && AtLeast(t, m) && s.c[s.cur] > m && i <= |s.c|
    requires t.run == s.run && t.c == s.c[s.cur := s.c[s.cur] - 1]
    ensures Excess(t, m, i) == Excess(s, m, i) - if s.cur < i then 1 else 0
    decreases i
  {
    if i > 0 {
      ExcessSpent(s, t, m, i - 1);
    }
  }

  lemma {:induction false} ExcessPart(s: Tasks, m: nat, i: nat, j: nat)
    requires AtLeast(s, m) && j < i <= |s.c| && s.run[j]
    ensures Excess(s, m, i) >= s.c[j] - m
    decreases i
  {
    if j < i - 1 {
      ExcessPart(s, m, i - 1, j);
    }
  }

  lemma {:induction false} ExcessNone(s: Tasks, m: nat, i: nat)
    requires AtLeast(s, m) && i <= |s.c| && forall j :: 0 <= j < i && s.run[j] ==> s.c[j] == m
    ensures Excess(s, m, i) == 0
    decreases i
  {
    if i > 0 {
      ExcessNone(s, m, i - 1);
    }
  }

  /** Lowering the level by `d` adds `d` for every runnable task. */
  lemma {:induction false} ExcessLower(s: Tasks, m: nat, d: nat, i: nat)
    requires AtLeast(s, m) && d <= m && i <= |s.c|
    ensures AtLeast(s, m - d) && Excess(s, m - d, i) == Excess(s, m, i) + d * Runnable(s, i)
    decreases i
  {
    if i > 0 {
      ExcessLower(s, m, d, i - 1);
      OneMore(d, Runnable(s, i - 1));
    }
  }

  lemma OneMore(d: nat, r: nat)
    ensures d * (r + 1) == d * r + d && d * (r + 0) == d * r
  {
  }

  // ---- Convergence -------------------------------------------------------------------------

  ghost predicate Level(s: Tasks, m: nat) {
    |s.c| == |s.run| && forall i :: 0 <= i < |s.c| && s.run[i] ==> s.c[i] == m
  }

  /** `m` is a runnable task's counter and no runnable task's is less; the current task is above
      it, unless all are level. */
  ghost predicate Settled(s: Tasks, m: nat) {
    Wf(s) && AtLeast(s, m) && (s.c[s.cur] > m || Level(s, m)) && exists i :: 0 <= i < |s.c| && s.run[i] && s.c[i] == m
  }

  /** When `schedule` keeps the current task, no runnable task has more; when it does not, the one
      it takes has more than the current one. */
  lemma ScheduleMaximal(s: Tasks)
    requires Wf(s)
    ensures Scheduled(s).cur == s.cur <==> forall i :: 0 <= i < |s.c| && s.run[i] ==> s.c[i] <= s.c[s.cur]
    ensures Scheduled(s).cur != s.cur ==> s.c[Scheduled(s).cur] > s.c[s.cur]
    ensures Wf(Scheduled(s)) && Scheduled(s).c == s.c && Scheduled(s).run == s.run
  {
    var i := First(s, 0);
  }

  /** Task `i` is the first runnable one above the current task. */
  ghost predicate FirstAbove(s: Tasks, i: nat) {
    && s.cur < |s.c| == |s.run| && i < |s.c| && s.run[i] && s.c[i] > s.c[s.cur]
    && forall j :: 0 <= j < i && s.run[j] ==> s.c[j] <= s.c[s.cur]
  }

  /** No runnable task has more than task `i`. */
  ghost predicate Greatest(s: Tasks, i: nat) {
    i < |s.c| == |s.run| && forall j :: 0 <= j < |s.c| && s.run[j] ==> s.c[j] <= s.c[i]
  }

  /** The task taken is the first in the table among those above the current one, also among equals. */
  lemma TakesFirst(s: Tasks)
    requires Wf(s)
    ensures Scheduled(s).cur != s.cur ==> FirstAbove(s, Scheduled(s).cur)
    ensures forall i: nat :: FirstAbove(s, i) ==> Scheduled(s).cur == i
  {
    var r := First(s, 0);
    if r < |s.c| {
      assert FirstAbove(s, r);
      assert forall i: nat :: FirstAbove(s, i) ==> i == r;
    }
  }

  /** `schedule` ends with a task that has the most if and only if the first runnable task above
      the current one has the most, or there is none above. */
  lemma TakesGreatest(s: Tasks)
    requires Wf(s)
    ensures Greatest(s, Scheduled(s).cur) <==> forall i: nat :: FirstAbove(s, i) ==> Greatest(s, i)
  {
    var r := First(s, 0);
    if r < |s.c| {
      assert FirstAbove(s, r);
      assert forall i: nat :: FirstAbove(s, i) ==> i == r;
    }
  }

  /** Counters 1, 2 and 3: the task with 2 is taken. */
  lemma SecondTaken()
    ensures var s := Tasks([1, 2, 3], [true, true, true], 0);
      Wf(s) && Scheduled(s).cur == 1 && Greatest(s, 2) && !Greatest(s, 1)
  {
    var s := Tasks([1, 2, 3], [true, true, true], 0);
    assert First(s, 0) == First(s, 1) == 1;
    assert s.run[2] && s.c[2] > s.c[1];
  }

  /** One tick from any state at all settles it. */
  lemma TickSettles(s: Tasks, m: nat)
    requires Wf(s) && s.c[s.cur] > 0
    requires AtLeast(Tick(s), m) && exists i :: 0 <= i < |s.c| && s.run[i] && Tick(s).c[i] == m
    ensures Settled(Tick(s), m)
  {
    ScheduleMaximal(Spent(s));
  }

  /** Above the minimum every tick takes one from the excess. */
  lemma TickConverges(s: Tasks, m: nat)
    requires Settled(s, m) && Excess(s, m, |s.c|) > 0
    ensures Settled(Tick(s), m) && Excess(Tick(s), m, |s.c|) == Excess(s, m, |s.c|) - 1
  {
    if Level(s, m) {
      ExcessNone(s, m, |s.c|);
    }
    var i :| 0 <= i < |s.c| && s.run[i] && s.c[i] == m;
    var t := Tick(s);
    ScheduleMaximal(Spent(s));
    assert t.c == s.c[s.cur := s.c[s.cur] - 1];
    assert t.c[i] == m;
    ExcessSpent(s, t, m, |s.c|);
  }

  /** From a settled state the counters are level after exactly as many ticks as they have in
      excess of the least, and the least does not change until then. */
  lemma {:induction false} Converges(s: Tasks, m: nat, k: nat)
    requires Settled(s, m) && k <= Excess(s, m, |s.c|)
    ensures Settled(Ticks(s, k), m) && Excess(Ticks(s, k), m, |s.c|) == Excess(s, m, |s.c|) - k
    ensures Level(Ticks(s, k), m) <==> k == Excess(s, m, |s.c|)
    decreases k
  {
    hide Tick, First;
    if k > 0 {
      Converges(s, m, k - 1);
      TickConverges(Ticks(s, k - 1), m);
    }
    LevelExcess(Ticks(s, k), m);
  }

  lemma LevelExcess(s: Tasks, m: nat)
    requires AtLeast(s, m)
    ensures Level(s, m) <==> Excess(s, m, |s.c|) == 0
  {
    if Level(s, m) {
      ExcessNone(s, m, |s.c|);
    } else {
      var j :| 0 <= j < |s.c| && s.run[j] && s.c[j] != m;
      ExcessPart(s, m, |s.c|, j);
    }
  }

  /** The least counter of a runnable task. */
  ghost function Least(s: Tasks, i: nat): (m: nat)
    requires Wf(s) && i <= |s.c|
    ensures forall j :: 0 <= j < i && s.run[j] ==> s.c[j] >= m
    ensures exists j :: 0 <= j < |s.c| && s.run[j] && s.c[j] == m
  {
    if i == 0 then s.c[s.cur]
    else
      var m := Least(s, i - 1);
      if s.run[i - 1] && s.c[i - 1] < m then s.c[i - 1] else m
  }

  lemma {:induction false} TicksShift(s: Tasks, k: nat)
    requires Wf(s)
    ensures Ticks(Tick(s), k) == Ticks(s, k + 1)
    decreases k
  {
    hide Tick;
    if k > 0 {
      TicksShift(s, k - 1);
    }
  }

  /** The sum falls by one in a tick that finds something to take. */
  lemma SumSpent(s: Tasks)
    requires Wf(s) && s.c[s.cur] > 0
    ensures Wf(Tick(s)) && Sum(Tick(s)) == Sum(s) - 1
  {
    var t := Spent(s);
    ExcessSpent(s, t, 0, |s.c|);
    ScheduleMaximal(t);
    SumOf(t, Tick(s), |s.c|);
  }

  lemma {:induction false} SumOf(s: Tasks, t: Tasks, i: nat)
    requires |s.c| == |s.run| && t.c == s.c && t.run == s.run && i <= |s.c|
    ensures Excess(s, 0, i) == Excess(t, 0, i)
  {
    if i > 0 {
      SumOf(s, t, i - 1);
    }
  }

  /** From any state whose current task has a tick left, the counters are level no later than when
      all ticks are spent. */
  lemma EventuallyLevel(s: Tasks) returns (k: nat, m: nat)
    requires Wf(s) && s.c[s.cur] > 0
    ensures 1 <= k <= Sum(s) && Level(Ticks(s, k), m) && Settled(Ticks(s, k), m)
  {
    hide Tick, First, Settled, Level, Excess;
    SumSpent(s);
    var t := Tick(s);
    m := SettleTick(s);
    var e := ExcessOf(t, m);
    Converges(t, m, e);
    TicksShift(s, e);
    k := e + 1;
  }

  /** The settled state after one tick, with its least counter. */
  lemma SettleTick(s: Tasks) returns (m: nat)
    requires Wf(s) && s.c[s.cur] > 0
    ensures Settled(Tick(s), m)
  {
    SumSpent(s);
    var t := Tick(s);
    m := Least(t, |t.c|);
    TickSettles(s, m);
  }

  lemma ExcessOf(t: Tasks, m: nat) returns (e: nat)
    requires Settled(t, m)
    ensures e == Excess(t, m, |t.c|) <= Sum(t)
  {
    e := Excess(t, m, |t.c|);
    ExcessLower(t, m, m, |t.c|);
  }

  /** A settled state with ticks left has one for the current task. */
  lemma SettledSum(s: Tasks, m: nat)
    requires Settled(s, m) && Sum(s) > 0
    ensures s.c[s.cur] > 0
  {
    if Level(s, m) {
      ExcessLower(s, m, m, |s.c|);
      ExcessNone(s, m, |s.c|);
    }
  }

  // ---- Fairness ----------------------------------------------------------------------------

  /** All within one of each other, with `q` the least. */
  ghost predicate Near(s: Tasks, q: nat) {
    Settled(s, q) && forall i :: 0 <= i < |s.c| && s.run[i] ==> s.c[i] <= q + 1
  }

  lemma {:induction false} NearExcess(s: Tasks, q: nat, i: nat)
    requires Near(s, q) && i <= |s.c|
    ensures Excess(s, q, i) <= Runnable(s, i)
    ensures (exists j :: 0 <= j < i && s.run[j] && s.c[j] == q) ==> Excess(s, q, i) < Runnable(s, i)
    decreases i
  {
    if i > 0 {
      NearExcess(s, q, i - 1);
    }
  }

  lemma NearWf(s: Tasks, q: nat)
    requires Near(s, q)
    ensures Wf(s)
  {
  }

  /** The level is the mean, rounded down. */
  lemma NearMean(s: Tasks, q: nat)
    requires Near(s, q)
    ensures Runnable(s, |s.c|) > 0 && q == Sum(s) / Runnable(s, |s.c|)
    ensures Sum(s) % Runnable(s, |s.c|) == 0 <==> Level(s, q)
  {
    var n := Runnable(s, |s.c|);
    NearExcess(s, q, |s.c|);
    ExcessLower(s, q, q, |s.c|);
    LevelExcess(s, q);
    DivExact(q, Excess(s, q, |s.c|), n);
  }

  lemma NearTick(s: Tasks, q: nat)
    requires Near(s, q) && Sum(s) > 0
    ensures s.c[s.cur] > 0 && (Near(Tick(s), q) || (q > 0 && Near(Tick(s), q - 1)))
  {
    ScheduleMaximal(Spent(s));
    if Level(s, q) {
      ExcessLower(s, q, q, |s.c|);
      ExcessNone(s, q, |s.c|);
      assert q > 0;
      assert Tick(s).c[s.cur] == q - 1;
    } else {
      LevelExcess(s, q);
      TickConverges(s, q);
    }
  }

  /** Among counters this near, `schedule` does end with a task that has the most. */
  lemma NearGreatest(s: Tasks, q: nat)
    requires Near(s, q) && Sum(s) > 0
    ensures Greatest(Tick(s), Tick(s).cur)
  {
    NearTick(s, q);
    ScheduleMaximal(Spent(s));
    if !Level(s, q) {
      assert Spent(s).c[s.cur] == q;
    }
  }

  function Mean(sum: nat, n: nat): nat
    requires n > 0
  {
    sum / n
  }

  /** Once near, always near: after `k` ticks the counters are the mean of what is left, rounded
      down, or one more, until everything is spent. */
  lemma {:induction false} StaysFair(s: Tasks, q: nat, k: nat)
    requires Near(s, q) && k <= Sum(s)
    ensures Runnable(s, |s.c|) > 0 && Sum(Ticks(s, k)) == Sum(s) - k && Near(Ticks(s, k), Mean(Sum(s) - k, Runnable(s, |s.c|)))
    decreases k
  {
    hide Tick, First, Near, Excess, Runnable;
    NearMean(s, q);
    NearWf(s, q);
    if k > 0 {
      StaysFair(s, q, k - 1);
      FairTick(Ticks(s, k - 1), Mean(Sum(s) - (k - 1), Runnable(s, |s.c|)));
      SameRunnable(s, Ticks(s, k - 1), |s.c|);
    }
  }

  /** One tick on: the mean of one less. */
  lemma FairTick(s: Tasks, q: nat)
    requires Near(s, q) && Sum(s) > 0
    ensures Wf(Tick(s)) && Sum(Tick(s)) == Sum(s) - 1 && Runnable(s, |s.c|) > 0 && Near(Tick(s), (Sum(s) - 1) / Runnable(s, |s.c|))
  {
    hide Tick, First, Near, Excess, Runnable;
    NearWf(s, q);
    NearMean(s, q);
    NearTick(s, q);
    SumSpent(s);
    SpentSame(s);
    SameRunnable(s, Tick(s), |s.c|);
    if Near(Tick(s), q) {
      NearMean(Tick(s), q);
    } else {
      NearMean(Tick(s), q - 1);
    }
  }

  lemma SpentSame(s: Tasks)
    requires Wf(s)
    ensures Tick(s).run == s.run && |Tick(s).c| == |s.c|
  {
  }

  lemma {:induction false} SameRunnable(s: Tasks, t: Tasks, i: nat)
    requires s.run == t.run && i <= |s.run|
    ensures Runnable(s, i) == Runnable(t, i)
  {
    if i > 0 {
      SameRunnable(s, t, i - 1);
    }
  }

  /** From level counters, one tick for each runnable task takes exactly one from each of them. */
  lemma RoundRobin(s: Tasks, m: nat)
    requires Wf(s) && Level(s, m) && m > 0
    ensures Runnable(s, |s.c|) > 0 && Level(Ticks(s, Runnable(s, |s.c|)), m - 1)
  {
    hide Tick, First, Ticks, Excess, Runnable;
    var n := Runnable(s, |s.c|);
    LevelNear(s, m);
    NearMean(s, m);
    assert Sum(s) - n == (m - 1) * n by { assert m * n - n == (m - 1) * n; }
    assert n <= Sum(s) by { assert n <= m * n; }
    StaysFair(s, m, n);
    DivExact(m - 1, 0, n);
    SameRunnable(s, Ticks(s, n), |s.c|);
    NearMean(Ticks(s, n), m - 1);
  }

  lemma LevelNear(s: Tasks, m: nat)
    requires Wf(s) && Level(s, m)
    ensures Near(s, m) && Sum(s) == m * Runnable(s, |s.c|)
  {
    ExcessLower(s, m, m, |s.c|);
    ExcessNone(s, m, |s.c|);
  }

  // ---- The end of the counters -------------------------------------------------------------

  /** No tick wraps a counter before all ticks are spent. */
  lemma {:induction false} SumFalls(s: Tasks, k: nat)
    requires Wf(s) && s.c[s.cur] > 0 && k <= Sum(s)
    ensures Sum(Ticks(s, k)) == Sum(s) - k && (k < Sum(s) ==> Ticks(s, k).c[Ticks(s, k).cur] > 0)
    decreases k
  {
    hide Tick, First;
    if k > 0 {
      SumFalls(s, k - 1);
      var t := Ticks(s, k - 1);
      SumSpent(t);
      if k < Sum(s) {
        var m := SettleTick(t);
        SettledSum(Tick(t), m);
      }
    }
  }

  /** A counter of 0 wraps in the next tick, and its task keeps the processor until it is down to the
      most any other runnable task has: for the next 2^64 - 1 ticks when all are 0. */
  lemma {:induction false} Starves(s: Tasks, m: nat, k: nat)
    requires Wf(s) && s.c[s.cur] == 0 && m < WRAP && forall i :: 0 <= i < |s.c| && s.run[i] ==> s.c[i] <= m
    requires 1 <= k <= WRAP - m
    ensures Ticks(s, k) == s.(c := s.c[s.cur := WRAP - k])
    decreases k
  {
    hide Tick, First;
    if k == 1 {
      assert s.c[s.cur := 0] == s.c;
      assert Ticks(s, 1) == Tick(Ticks(s, 0));
      AloneTick(s, m, 0);
    } else {
      Starves(s, m, k - 1);
      AloneTick(s, m, WRAP - (k - 1));
    }
  }

  /** Against counters of no more the current task stays. */
  lemma AloneTick(s: Tasks, m: nat, x: nat)
    requires Wf(s) && x < WRAP && m <= Less(x) && forall i :: 0 <= i < |s.c| && s.run[i] ==> s.c[i] <= m
    ensures Tick(s.(c := s.c[s.cur := x])) == s.(c := s.c[s.cur := Less(x)])
  {
    var t := s.(c := s.c[s.cur := x]);
    ScheduleMaximal(Spent(t));
    assert Spent(t).c == s.c[s.cur := Less(x)];
  }

  /** Ticks from supervisor mode bring this about while other tasks have ticks left: with counters 1 and 5
      one of them leaves 0 and 5, and the second task waits for 2^64 - 5 ticks. */
  lemma SupervisorDrains(k: nat)
    requires 1 <= k <= WRAP - 5
    ensures var s := Tasks([1, 5], [true, true], 0);
      Wf(s) && Spent(s).c == [0, 5] && Wf(Spent(s)) && Ticks(Spent(s), k).cur == 0
  {
    var s := Tasks([1, 5], [true, true], 0);
    assert Spent(s).c == [0, 5];
    Starves(Spent(s), 5, k);
  }
}

// Selection: which task the scheduler dispatches, and how long one can wait.
module SchedSelect {
  import opened Arith
  import opened TaskModel

  // ------------------------------------------------------------ cyclic order

  lemma {:induction false} CycleAppend(c: set<nat>, from: nat, m: nat, n: nat)
    ensures Cycle(c, from, m + n) == Cycle(c, from, m) + Cycle(c, from + m, n)
    decreases m
  {
    hide At;
    if m > 0 {
      CycleAppend(c, from + 1, m - 1, n);
    }
  }

  lemma AtPeriodic(i: nat)
    ensures At(i + MAX_TASKS) == At(i)
  {}

  lemma {:induction false} CyclePeriodic(c: set<nat>, a: nat, b: nat, n: nat)
    requires b == a + MAX_TASKS
    ensures Cycle(c, a, n) == Cycle(c, b, n)
    decreases n
  {
    AtPeriodic(a);
    hide At;
    if n > 0 { CyclePeriodic(c, a + 1, b + 1, n - 1); }
  }

  /** The first member met is at the least place holding a member. */
  lemma {:induction false} CycleHead(c: set<nat>, from: nat, n: nat) returns (d: nat)
    requires Cycle(c, from, n) != []
    ensures d < n && At(from + d) == Cycle(c, from, n)[0]
    ensures Cycle(c, from, d) == []
    ensures forall p :: from <= p < from + d ==> At(p) !in c
    decreases n
  {
    hide At;
    if At(from) in c {
      d := 0;
    } else {
      d := CycleHead(c, from + 1, n - 1);
      d := d + 1;
    }
  }

  lemma {:induction false} CycleWithout(c: set<nat>, from: nat, n: nat, x: nat)
    requires forall p :: from <= p < from + n ==> At(p) != x
    ensures x !in Cycle(c, from, n)
    decreases n
  {
    hide At;
    if n > 0 { CycleWithout(c, from + 1, n - 1, x); }
  }

  lemma CycleOne(c: set<nat>, from: nat)
    ensures Cycle(c, from, 1) == if At(from) in c then [At(from)] else []
  {
    assert Cycle(c, from + 1, 0) == [];
  }

  lemma CycleCount(c: set<nat>, from: nat, x: nat)
    requires x < MAX_TASKS && from <= MAX_TASKS
    ensures multiset(Cycle(c, from, MAX_TASKS))[x] == if x in c then 1 else 0
  {
    hide At, Cycle;
    var p := if x < from then x + MAX_TASKS else x;
    var d := p - from;
    assert d < MAX_TASKS && At(p) == x;
    CycleAppend(c, from, d, MAX_TASKS - d);
    CycleAppend(c, p, 1, MAX_TASKS - d - 1);
    CycleOne(c, p);
    CycleWithout(c, from, d, x);
    CycleWithout(c, p + 1, MAX_TASKS - d - 1, x);
  }

  /** The turns from any slot are the members of c, each exactly once. */
  lemma TurnsListOnce(c: set<nat>, current: nat)
    requires current < MAX_TASKS && forall x :: x in c ==> x < MAX_TASKS
    ensures multiset(Turns(c, current)) == multiset(c)
    ensures |Turns(c, current)| == |c|
  {
    hide Cycle, At;
    var turns := Turns(c, current);
    CycleMembers(c, current + 1, MAX_TASKS);
    var listed: multiset<nat>, members: multiset<nat> := multiset(turns), multiset(c);
    forall x: nat
      ensures listed[x] == members[x]
    {
      if x < MAX_TASKS { CycleCount(c, current + 1, x); } else { assert x !in turns; }
    }
    assert listed == members;
    assert |listed| == |turns| && |members| == |c|;
  }

  /** After the first turn is taken, the turns are the same ones with the first
      moved to the end. */
  lemma TurnsRotate(c: set<nat>, current: nat)
    requires current < MAX_TASKS && Turns(c, current) != []
    ensures var t := Turns(c, current);
      Turns(c, t[0]) == t[1..] + [t[0]]
  {
    hide At, Cycle;
    var from := current + 1;
    var d := CycleHead(c, from, MAX_TASKS);
    var p := from + d;
    var x := Turns(c, current)[0];
    CycleMembers(c, from, MAX_TASKS);
    CycleAppend(c, from, d, MAX_TASKS - d);
    CycleAppend(c, p, 1, MAX_TASKS - d - 1);
    CycleOne(c, p);
    var rest := Cycle(c, p + 1, MAX_TASKS - d - 1);
    assert Turns(c, current) == [x] + rest;
    // From x: first the rest, then around to the slots before it, then x.
    TurnsFrom(c, x, p + 1);
    CycleAppend(c, p + 1, MAX_TASKS - d - 1, d + 1);
    CyclePeriodic(c, from, from + MAX_TASKS, d + 1);
    CycleAppend(c, from, d, 1);
  }

  lemma TurnsFrom(c: set<nat>, x: nat, q: nat)
    requires x < MAX_TASKS && (q == x + 1 || q == x + 1 + MAX_TASKS)
    ensures Turns(c, x) == Cycle(c, q, MAX_TASKS)
  {
    CyclePeriodic(c, x + 1, x + 1 + MAX_TASKS, MAX_TASKS);
  }

  /** Places from `current` to slot k going round: 0 is the next slot, current is last. */
  function Distance(current: nat, k: nat): (d: nat)
    requires current < MAX_TASKS && k < MAX_TASKS
    ensures d == if current < k then k - current - 1 else k + MAX_TASKS - current - 1
  {
    (k - current - 1) % MAX_TASKS
  }

  /** Selection finds a task of maximum priority: the first slot of that priority
      strictly after current in cyclic order, current itself last. */
  predicate IsSelection(tasks: seq<Task>, current: nat, k: nat)
    requires |tasks| == MAX_TASKS && current < MAX_TASKS
  {
    && k < MAX_TASKS && Runnable(tasks[k]) && tasks[k].priority > 0
    && (forall j :: 0 <= j < MAX_TASKS && Runnable(tasks[j]) ==> tasks[j].priority <= tasks[k].priority)
    && (forall j :: 0 <= j < MAX_TASKS && Runnable(tasks[j]) && tasks[j].priority == tasks[k].priority ==>
         Distance(current, k) <= Distance(current, j))
  }

  lemma TopSetMeaning(tasks: seq<Task>, j: nat)
    requires j < |tasks|
    ensures j in TopSet(tasks) <==>
      && Runnable(tasks[j]) && tasks[j].priority > 0
      && forall i :: 0 <= i < |tasks| && Runnable(tasks[i]) ==> tasks[i].priority <= tasks[j].priority
  {}

  lemma ChoiceIsSelection(tasks: seq<Task>, current: nat)
    requires |tasks| == MAX_TASKS && current < MAX_TASKS
    ensures Choice(tasks, current).Some? ==> IsSelection(tasks, current, Choice(tasks, current).value)
    ensures Choice(tasks, current).None? ==> forall j :: 0 <= j < MAX_TASKS ==> j !in TopSet(tasks)
  {
    hide At, Cycle, TopSet, Distance;
    var c := TopSet(tasks);
    TurnsListOnce(c, current);
    if Turns(c, current) != [] {
      var k := Turns(c, current)[0];
      var d := CycleHead(c, current + 1, MAX_TASKS);
      CycleMembers(c, current + 1, MAX_TASKS);
      TopSetMeaning(tasks, k);
      forall j | 0 <= j < MAX_TASKS && Runnable(tasks[j]) && tasks[j].priority == tasks[k].priority
        ensures Distance(current, k) <= Distance(current, j)
      {
        TopSetMeaning(tasks, j);
        assert At(current + 1 + Distance(current, j)) == j;
      }
    } else {
      assert |c| == 0;
    }
  }

  /** Nobody is chosen only when no runnable task has a priority of at least 1. */
  lemma NoChoice(tasks: seq<Task>, current: nat)
    requires |tasks| == MAX_TASKS && current < MAX_TASKS
    ensures Choice(tasks, current).None? <==>
      forall j :: 0 <= j < MAX_TASKS && Runnable(tasks[j]) ==> tasks[j].priority == 0
  {
    hide Choice;
    ChoiceIsSelection(tasks, current);
    var p := TopPriority(tasks);
    if Choice(tasks, current).None? && p > 0 {
      var i :| 0 <= i < |tasks| && Runnable(tasks[i]) && tasks[i].priority == p;
      TopSetMeaning(tasks, i);
    }
  }

  /** A selection is unique, so the predicate pins the chosen slot down. */
  lemma SelectionUnique(tasks: seq<Task>, current: nat, k: nat)
    requires |tasks| == MAX_TASKS && current < MAX_TASKS && IsSelection(tasks, current, k)
    ensures Choice(tasks, current) == Some(k)
  {
    hide Choice, Distance;
    ChoiceIsSelection(tasks, current);
    NoChoice(tasks, current);
  }
}

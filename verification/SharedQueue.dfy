/** SharedQueue: a bounded queue guarded by a mutex and a condition variable, used by any number of
    threads whose steps interleave in any order. */
module SharedQueue {

  import opened Wrappers

  /** The queue after an item was pushed. */
  function Pushed<T>(q: seq<T>, item: T, maxSize: nat, clearOnFull: bool): seq<T>
  {
    var r := if |q| >= maxSize && clearOnFull then [] else q;
    if |r| < maxSize then r + [item] else r
  }

  // ---------- what happens while the mutex is held ----------

  class Queue<T> {
    const maxSize: nat
    const clearOnFull: bool
    var queue: seq<T>

    constructor (maxSize: nat, clearOnFull: bool)
      ensures this.maxSize == maxSize && this.clearOnFull == clearOnFull && queue == []
    {
      this.maxSize, this.clearOnFull, queue := maxSize, clearOnFull, [];
    }

    method Push(item: T)
      requires |queue| <= maxSize
      modifies this
      ensures queue == Pushed(old(queue), item, maxSize, clearOnFull)
      ensures |queue| <= maxSize
      ensures |old(queue)| < maxSize ==> queue == old(queue) + [item]
      ensures |old(queue)| == maxSize && (!clearOnFull || maxSize == 0) ==> queue == old(queue)
      ensures |old(queue)| == maxSize && clearOnFull && maxSize > 0 ==> queue == [item]
    {
      if |queue| >= maxSize && clearOnFull {
        queue := [];
      }
      if |queue| < maxSize {
        queue := queue + [item];
      }
    }

    method TryPop() returns (v: Option<T>)
      modifies this
      ensures old(queue) == [] ==> v == None && queue == []
      ensures old(queue) != [] ==> v == Some(old(queue)[0]) && queue == old(queue)[1..]
    {
      if queue == [] {
        return None;
      }
      v := Some(queue[0]);
      queue := queue[1..];
    }
  }

  // ---------- threads ----------

  /** Where a thread is. WantX waits for the mutex at the start of X; Popping, Trying and Pushing
      hold it; Parked waits on the condition; Woken was woken and waits for the mutex again;
      Notifying has put its item in and released the mutex but not notified yet. */
  datatype Pc<T> =
    | Idle
    | WantPop | Popping | Parked | Woken
    | WantTry | Trying
    | WantPush(item: T) | Pushing(item: T) | Notifying

  /** pushed and popped record all items so far, in the order in which the mutex was held. */
  datatype State<T> = State(maxSize: nat, clearOnFull: bool, queue: seq<T>, holder: Option<nat>, pc: map<nat, Pc<T>>,
                            pushed: seq<T>, popped: seq<T>)

  datatype Step<T> =
    | Call(t: nat, want: Pc<T>)
    | Lock(t: nat)
    | Work(t: nat)
    | Notify(t: nat, wake: Option<nat>)
    | WakeSpuriously(t: nat)

  function Start<T>(maxSize: nat, clearOnFull: bool, threads: set<nat>): State<T>
  {
    State(maxSize, clearOnFull, [], None, map t | t in threads :: Idle, [], [])
  }

  function Holding<T>(p: Pc<T>): bool
  {
    p.Popping? || p.Trying? || p.Pushing?
  }

  predicate Enabled<T(==)>(s: State<T>, step: Step<T>)
  {
    && step.t in s.pc
    && match step
       case Call(t, want) => s.pc[t].Idle? && (want.WantPop? || want.WantTry? || want.WantPush?)
       case Lock(t) => s.holder.None? && (s.pc[t].WantPop? || s.pc[t].Woken? || s.pc[t].WantTry? || s.pc[t].WantPush?)
       case Work(t) => Holding(s.pc[t])
       case Notify(t, wake) =>
         && s.pc[t].Notifying?
         && (wake.Some? ==> wake.value in s.pc && s.pc[wake.value].Parked?)
         && (wake.None? ==> forall u :: u in s.pc ==> !s.pc[u].Parked?)
       case WakeSpuriously(t) => s.pc[t].Parked?
  }

  function Locked<T>(p: Pc<T>): Pc<T>
  {
    match p
    case WantPop => Popping
    case Woken => Popping
    case WantTry => Trying
    case WantPush(item) => Pushing(item)
    case _ => p
  }

  function Move<T>(s: State<T>, t: nat, p: Pc<T>): State<T>
  {
    s.(pc := s.pc[t := p])
  }

  /** The part of a call between locking and releasing the mutex. */
  function Worked<T>(s: State<T>, t: nat): State<T>
    requires t in s.pc
  {
    var r := s.(holder := None);
    match s.pc[t]
    case Popping =>
      if s.queue == [] then Move(r, t, Parked)
      else Move(r, t, Idle).(queue := s.queue[1..], popped := s.popped + [s.queue[0]])
    case Trying =>
      if s.queue == [] then Move(r, t, Idle)
      else Move(r, t, Idle).(queue := s.queue[1..], popped := s.popped + [s.queue[0]])
    case Pushing(item) =>
      Move(r, t, Notifying).(queue := Pushed(s.queue, item, s.maxSize, s.clearOnFull), pushed := s.pushed + [item])
    case _ => s
  }

  function Next<T>(s: State<T>, step: Step<T>): State<T>
    requires Enabled(s, step)
  {
    match step
    case Call(t, want) => Move(s, t, want)
    case Lock(t) => Move(s, t, Locked(s.pc[t])).(holder := Some(t))
    case Work(t) => Worked(s, t)
    case Notify(t, wake) => if wake.Some? then Move(Move(s, t, Idle), wake.value, Woken) else Move(s, t, Idle)
    case WakeSpuriously(t) => Move(s, t, Woken)
  }

  // ---------- invariants ----------

  /** The threads that will look at the queue or wake somebody who will. */
  function Attending<T>(s: State<T>): set<nat>
  {
    set t | t in s.pc && Attends(s.pc[t])
  }

  predicate SomeoneParked<T(==)>(s: State<T>)
  {
    exists t :: t in s.pc && s.pc[t].Parked?
  }

  /** While a consumer is parked, every queued item has a thread that attends to it. */
  predicate NoLostWakeup<T(==)>(s: State<T>)
  {
    SomeoneParked(s) ==> |s.queue| <= |Attending(s)|
  }

  /** The thread inside the critical section, if there is one, is the one that holds the mutex. */
  predicate Exclusive<T(==)>(s: State<T>)
  {
    && (forall t :: t in s.pc && Holding(s.pc[t]) ==> s.holder == Some(t))
    && (s.holder.Some? ==> s.holder.value in s.pc && Holding(s.pc[s.holder.value]))
  }

  /** a is b with some items left out. */
  ghost predicate Subsequence<T(!new)>(a: seq<T>, b: seq<T>)
  {
    exists ks: seq<nat> :: Picks(a, b, ks)
  }

  predicate Picks<T(==)>(a: seq<T>, b: seq<T>, ks: seq<nat>)
  {
    && |ks| == |a|
    && (forall i :: 0 <= i < |ks| ==> ks[i] < |b| && a[i] == b[ks[i]])
    && (forall i, j :: 0 <= i < j < |ks| ==> ks[i] < ks[j])
  }

  ghost predicate Inv<T(!new)>(s: State<T>)
  {
    && Exclusive(s)
    && NoLostWakeup(s)
    && |s.queue| <= s.maxSize
    && Subsequence(s.popped + s.queue, s.pushed)
  }

  lemma PrefixPicks<T>(a: seq<T>, c: seq<T>, b: seq<T>, ks: seq<nat>)
    requires Picks(a + c, b, ks)
    ensures Picks(a, b, ks[..|a|])
  {
    assert forall i :: 0 <= i < |a| ==> (a + c)[i] == a[i];
  }

  lemma LaterPicks<T>(a: seq<T>, b: seq<T>, ks: seq<nat>, item: T)
    requires Picks(a, b, ks)
    ensures Picks(a, b + [item], ks)
    ensures Picks(a + [item], b + [item], ks + [|b|])
  {
  }

  lemma PushPicks<T(!new)>(popped: seq<T>, q: seq<T>, pushed: seq<T>, item: T, maxSize: nat, clearOnFull: bool)
    requires Subsequence(popped + q, pushed)
    ensures Subsequence(popped + Pushed(q, item, maxSize, clearOnFull), pushed + [item])
  {
    var ks: seq<nat> :| Picks(popped + q, pushed, ks);
    hide Picks;
    PrefixPicks(popped, q, pushed, ks);
    assert popped + [] == popped;
    var clear := |q| >= maxSize && clearOnFull;
    var r, kr := if clear then [] else q, if clear then ks[..|popped|] else ks;
    LaterPicks(popped + r, pushed, kr, item);
    assert popped + (r + [item]) == (popped + r) + [item];
  }

  lemma WorkKeepsItems<T(!new)>(s: State<T>, t: nat)
    requires Inv(s) && t in s.pc && Holding(s.pc[t])
    ensures |Worked(s, t).queue| <= s.maxSize
    ensures Subsequence(Worked(s, t).popped + Worked(s, t).queue, Worked(s, t).pushed)
  {
    if s.pc[t].Pushing? {
      PushPicks(s.popped, s.queue, s.pushed, s.pc[t].item, s.maxSize, s.clearOnFull);
    } else if s.queue != [] {
      assert (s.popped + [s.queue[0]]) + s.queue[1..] == s.popped + s.queue;
    }
  }

  predicate Attends<T>(p: Pc<T>)
  {
    p.Notifying? || p.Woken? || p.Popping?
  }

  lemma OneElement(a: set<nat>, b: set<nat>, t: nat)
    requires a - {t} == b - {t}
    ensures |b| == |a| - (if t in a then 1 else 0) + (if t in b then 1 else 0)
  {
    var c := a - {t};
    assert a == if t in a then c + {t} else c;
    assert b == if t in b then c + {t} else c;
  }

  /** How one move changes the number of attending threads. */
  lemma AttendingMoves<T>(s: State<T>, t: nat, p: Pc<T>)
    requires t in s.pc
    ensures |Attending(Move(s, t,
                            p))| == |Attending(s)| - (if Attends(s.pc[t]) then 1 else 0) + (if Attends(p) then 1 else 0)
    ensures !p.Parked? && SomeoneParked(Move(s, t, p)) ==> SomeoneParked(s)
  {
    hide Attends;
    OneElement(Attending(s), Attending(Move(s, t, p)), t);
    ParkedMoves(s, t, p);
  }

  lemma ParkedMoves<T>(s: State<T>, t: nat, p: Pc<T>)
    requires t in s.pc
    ensures !p.Parked? && SomeoneParked(Move(s, t, p)) ==> SomeoneParked(s)
  {
    if !p.Parked? && SomeoneParked(Move(s, t, p)) {
      var u :| u in Move(s, t, p).pc && Move(s, t, p).pc[u].Parked?;
      assert s.pc[u].Parked?;
    }
  }

  /** Attending and parked threads depend on where the threads are only. */
  lemma SamePlaces<T>(s: State<T>, u: State<T>)
    requires s.pc == u.pc
    ensures Attending(s) == Attending(u) && (SomeoneParked(s) <==> SomeoneParked(u))
  {
  }

  lemma WorkKeepsWakeups<T(!new)>(s: State<T>, t: nat)
    requires NoLostWakeup(s) && t in s.pc && Holding(s.pc[t])
    ensures NoLostWakeup(Worked(s, t))
  {
    hide Attending, SomeoneParked;
    var u := Worked(s, t);
    AttendingMoves(s, t, u.pc[t]);
    SamePlaces(Move(s, t, u.pc[t]), u);
  }

  lemma OtherStepKeepsWakeups<T(!new)>(s: State<T>, step: Step<T>)
    requires NoLostWakeup(s) && Enabled(s, step) && !step.Work?
    ensures NoLostWakeup(Next(s, step))
  {
    hide Attending, SomeoneParked;
    var u, t := Next(s, step), step.t;
    if step.Notify? && step.wake.Some? {
      AttendingMoves(s, t, Idle);
      AttendingMoves(Move(s, t, Idle), step.wake.value, Woken);
    } else if step.Notify? {
      NobodyParked(s);
      AttendingMoves(s, t, Idle);
    } else {
      AttendingMoves(s, t, u.pc[t]);
      SamePlaces(Move(s, t, u.pc[t]), u);
    }
  }

  lemma NobodyParked<T>(s: State<T>)
    requires forall u :: u in s.pc ==> !s.pc[u].Parked?
    ensures !SomeoneParked(s)
  {
  }

  lemma StepKeepsInv<T(!new)>(s: State<T>, step: Step<T>)
    requires Inv(s) && Enabled(s, step)
    ensures Inv(Next(s, step))
  {
    hide NoLostWakeup, Subsequence;
    if step.Work? {
      WorkKeepsItems(s, step.t);
      WorkKeepsWakeups(s, step.t);
    } else {
      OtherStepKeepsWakeups(s, step);
    }
  }

  // ---------- whole runs ----------

  predicate IsRun<T(==)>(s: State<T>, steps: seq<Step<T>>)
    decreases |steps|, 0
  {
    steps == [] || (IsRun(s, steps[..|steps| - 1]) && Enabled(After(s, steps[..|steps| - 1]), steps[|steps| - 1]))
  }

  function After<T(==)>(s: State<T>, steps: seq<Step<T>>): State<T>
    requires IsRun(s, steps)
    decreases |steps|, 1
  {
    if steps == [] then s else Next(After(s, steps[..|steps| - 1]), steps[|steps| - 1])
  }

  /** In every interleaving: mutual exclusion, no item without somebody to fetch it while a consumer
      is parked, a bounded queue, and items come out in the order they went in, each at most once. */
  lemma {:induction false} EveryRunIsSafe<T(!new)>(maxSize: nat, clearOnFull: bool, threads: set<nat>,
                                                   steps: seq<Step<T>>)
    requires IsRun(Start(maxSize, clearOnFull, threads), steps)
    ensures Inv(After(Start(maxSize, clearOnFull, threads), steps))
    decreases |steps|
  {
    var s := Start<T>(maxSize, clearOnFull, threads);
    if steps == [] {
      assert Picks(s.popped + s.queue, s.pushed, []);
    } else {
      EveryRunIsSafe(maxSize, clearOnFull, threads, steps[..|steps| - 1]);
      StepKeepsInv(After(s, steps[..|steps| - 1]), steps[|steps| - 1]);
      hide Inv, Next, Enabled;
    }
  }

  // ---------- what a call returns with ----------

  /** A pop waits until there is an item: it returns only with the oldest one. */
  lemma PopReturnsTheOldest<T(!new)>(s: State<T>, step: Step<T>, t: nat)
    requires Enabled(s, step) && t in s.pc
    requires s.pc[t].WantPop? || s.pc[t].Popping? || s.pc[t].Parked? || s.pc[t].Woken?
    ensures var u := Next(s, step);
      t in u.pc && (u.pc[t].Idle? ==> s.queue != [] && u.queue == s.queue[1..] && u.popped == s.popped + [s.queue[0]])
  {
  }

  // ---------- nothing is lost while the queue has room ----------

  /** The next step is a push that finds the queue full. */
  predicate Overflows<T(==)>(s: State<T>, step: Step<T>)
  {
    step.Work? && step.t in s.pc && s.pc[step.t].Pushing? && |s.queue| >= s.maxSize
  }

  predicate NeverOverflows<T(==)>(s: State<T>, steps: seq<Step<T>>)
    requires IsRun(s, steps)
    decreases |steps|
  {
    steps == [] ||
    (var n := |steps| - 1;
     NeverOverflows(s, steps[..n]) && !Overflows(After(s, steps[..n]), steps[n]))
  }

  /** One step loses an item exactly when it is a push that finds the queue full. */
  lemma StepLoses<T(!new)>(s: State<T>, step: Step<T>)
    requires Enabled(s, step) && |s.queue| <= s.maxSize && |s.popped + s.queue| <= |s.pushed|
    ensures var t := Next(s, step);
      && |t.popped + t.queue| <= |t.pushed|
      && (!Overflows(s, step) && s.popped + s.queue == s.pushed ==> t.popped + t.queue == t.pushed)
      && (Overflows(s, step) || |s.popped + s.queue| < |s.pushed| ==> |t.popped + t.queue| < |t.pushed|)
  {
    if step.Work? && !s.pc[step.t].Pushing? && s.queue != [] {
      assert (s.popped + [s.queue[0]]) + s.queue[1..] == s.popped + s.queue;
    } else if step.Work? && s.pc[step.t].Pushing? {
      assert s.popped + (s.queue + [s.pc[step.t].item]) == (s.popped + s.queue) + [s.pc[step.t].item];
    }
  }

  /** What was popped and what is queued is all that was pushed, in order, exactly when no push ever found
      the queue full. */
  lemma {:induction false} NothingLostExactlyWhen<T(!new)>(maxSize: nat, clearOnFull: bool, threads: set<nat>,
                                                           steps: seq<Step<T>>)
    requires IsRun(Start(maxSize, clearOnFull, threads), steps)
    ensures var s := Start(maxSize, clearOnFull, threads); var t := After(s, steps);
      && (t.popped + t.queue == t.pushed <==> NeverOverflows(s, steps))
      && (!NeverOverflows(s, steps) ==> |t.popped + t.queue| < |t.pushed|)
    decreases |steps|
  {
    var s := Start<T>(maxSize, clearOnFull, threads);
    if steps != [] {
      var n := |steps| - 1;
      NothingLostExactlyWhen(maxSize, clearOnFull, threads, steps[..n]);
      EveryRunIsSafe(maxSize, clearOnFull, threads, steps[..n]);
      StepLoses(After(s, steps[..n]), steps[n]);
      hide Next, Enabled, Overflows;
    }
  }

  // ---------- progress ----------

  /** The steps make one item be popped, and no thread that is outside needs to begin a call. */
  predicate PopsOne<T(==)>(s: State<T>, steps: seq<Step<T>>)
  {
    && IsRun(s, steps)
    && |After(s, steps).popped| == |s.popped| + 1
    && forall i :: 0 <= i < |steps| ==> !steps[i].Call?
  }

  lemma {:induction false} FirstStep<T(!new)>(s: State<T>, step: Step<T>, rest: seq<Step<T>>)
    requires Enabled(s, step) && IsRun(Next(s, step), rest)
    ensures IsRun(s, [step] + rest) && After(s, [step] + rest) == After(Next(s, step), rest)
    decreases |rest|
  {
    hide Enabled, Next;
    var all := [step] + rest;
    if rest == [] {
      assert all[..0] == [];
      assert all == [step];
      assert IsRun(s, all[..0]) && After(s, all[..0]) == s;
    } else {
      var n := |rest| - 1;
      FirstStep(s, step, rest[..n]);
      assert all[..|all| - 1] == [step] + rest[..n];
    }
  }

  lemma PopsLater<T(!new)>(s: State<T>, step: Step<T>, rest: seq<Step<T>>)
    requires Enabled(s, step) && Next(s, step).popped == s.popped && PopsOne(Next(s, step), rest) && !step.Call?
    ensures PopsOne(s, [step] + rest)
  {
    hide Enabled, Next, IsRun, After;
    FirstStep(s, step, rest);
  }

  lemma PopsNow<T(!new)>(s: State<T>, t: nat)
    requires t in s.pc && (s.pc[t].Popping? || s.pc[t].Trying?) && s.queue != []
    ensures PopsOne(s, [Work(t)])
  {
    assert IsRun(s, []) && After(s, []) == s;
    FirstStep(s, Work(t), []);
  }

  lemma FreePops<T(!new)>(s: State<T>, t: nat)
    requires t in s.pc && s.pc[t].Woken? && s.holder.None? && s.queue != []
    ensures PopsOne(s, [Lock(t), Work(t)])
  {
    hide IsRun, After, PopsOne;
    PopsNow(Next(s, Lock(t)), t);
    var rest: seq<Step<T>> := [Work(t)];
    PopsLater(s, Lock(t), rest);
    assert [Lock(t)] + rest == [Lock(t), Work(t)];
  }

  /** A woken consumer gets the mutex as soon as whoever holds it is done. */
  lemma WokenPops<T(!new)>(s: State<T>, t: nat) returns (steps: seq<Step<T>>)
    requires Exclusive(s) && t in s.pc && s.pc[t].Woken? && s.queue != [] && |s.queue| <= s.maxSize
    ensures PopsOne(s, steps) && |steps| <= 3
  {
    hide IsRun, After, PopsOne;
    if s.holder.None? {
      FreePops(s, t);
      return [Lock(t), Work(t)];
    }
    var u := s.holder.value;
    if !s.pc[u].Pushing? {
      PopsNow(s, u);
      return [Work(u)];
    }
    FreePops(Next(s, Work(u)), t);
    PopsLater(s, Work(u), [Lock(t), Work(t)]);
    return [Work(u)] + [Lock(t), Work(t)];
  }

  /** Consequently a consumer parked beside a queued item is never stuck: at most four steps of threads
      that are inside a call already, all of them possible, make an item be popped. */
  lemma ParkedIsNotStuck<T(!new)>(s: State<T>) returns (steps: seq<Step<T>>)
    requires Inv(s) && SomeoneParked(s) && s.queue != []
    ensures PopsOne(s, steps) && |steps| <= 4
  {
    hide IsRun, After, PopsOne, Subsequence;
    assert Attending(s) != {};
    var t :| t in Attending(s);
    if s.pc[t].Popping? {
      PopsNow(s, t);
      steps := [Work(t)];
    } else if s.pc[t].Woken? {
      steps := WokenPops(s, t);
    } else {
      var u :| u in s.pc && s.pc[u].Parked?;
      steps := WokenPops(Next(s, Notify(t, Some(u))), u);
      PopsLater(s, Notify(t, Some(u)), steps);
      steps := [Notify(t, Some(u))] + steps;
    }
  }
}

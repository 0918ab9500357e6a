/** How the thread pool comes to rest, and what has been done by then; and what becomes of a TERMINAL item. */
module PoolRest {
  import opened Options
  import opened ThreadPool

  // ---- rest ----

  predicate Rests(w: Worker) {
    w.Asleep? || w.Gone?
  }

  ghost predicate AllReturned(s: State) {
    forall p: nat | p < |s.pushers| :: s.pushers[p].Returned?
  }

  /** Every worker is blocked or gone, and every call of push has returned. */
  ghost predicate AtRest(s: State) {
    && s.owner == Free && AllReturned(s)
    && forall w: nat | w < |s.workers| :: Rests(s.workers[w])
  }

  /** The pool is at rest exactly if no thread can take a step. */
  lemma RestIsDeadEnd(s: State)
    requires Reachable(s)
    ensures AtRest(s) <==> forall a: Action | Progress.Has(a) :: Step(s, a).None?
  {
    hide RunFrom, CountersAgree, SleepySawNothing, EnoughAwake, EachOnce;
    ReachableIsSound(s);
    if AtRest(s) {
      forall a: Action | Progress.Has(a) ensures Step(s, a).None? {
        RestHasNoStep(s, a);
      }
    }
    if forall a: Action | Progress.Has(a) :: Step(s, a).None? {
      var step := HolderCanStep(s);
      forall p: nat | p < |s.pushers| ensures s.pushers[p].Returned? {
        PusherWaits(s, p);
        assert Progress.Has(PusherStep(p, 0)) && Step(s, PusherStep(p, 0)).None?;
      }
      forall w: nat | w < |s.workers| ensures Rests(s.workers[w]) {
        FreeWorkerSteps(s, w);
        assert Progress.Has(WorkerStep(w)) && Step(s, WorkerStep(w)).None?;
      }
    }
  }

  lemma RestHasNoStep(s: State, a: Action)
    requires AtRest(s) && Progress.Has(a)
    ensures Step(s, a).None?
  {
    hide NoneAsleep;
    if a.WorkerStep? && a.w < |s.workers| { assert Rests(s.workers[a.w]); }
  }

  /** Whoever holds the mutex can take a step. */
  lemma HolderCanStep(s: State) returns (a: Action)
    requires MutexHeld(s)
    ensures s.owner != Free ==> Progress.Has(a) && Step(s, a).Some?
  {
    hide StepWorker, StepPusher;
    match s.owner
    case ByWorker(h) =>
      assert WorkerLocks(s.workers[h]);
      HolderSteps(s, h);
      a := WorkerStep(h);
    case ByPusher(p) =>
      var t;
      a, t := PushMoves(s, p);
    case Free => a := Spawn;
  }

  /** With the mutex free a call of push waits for it or has returned, and the one that waits can take it. */
  lemma PusherWaits(s: State, p: nat)
    requires MutexHeld(s) && s.owner == Free && p < |s.pushers|
    ensures s.pushers[p].Returned? || (s.pushers[p].Ready? && Step(s, PusherStep(p, 0)).Some?)
  {
    assert PusherLocks(s.pushers[p]) <==> s.owner == ByPusher(p);
  }

  lemma FreeWorkerSteps(s: State, w: nat)
    requires s.owner == Free && w < |s.workers|
    ensures Rests(s.workers[w]) || Step(s, WorkerStep(w)).Some?
  {
  }

  // ---- what has been done at rest ----

  /** Where the flag is not set somebody is going to set it, or there is work left. */
  ghost predicate FlagPending(s: State) {
    || s.allFinished || s.queue != []
    || (exists p: nat :: p < |s.pushers| && Carries(s.pushers[p]))
    || (exists w: nat :: w < |s.workers| && GoesOn(s.workers[w]))
  }

  predicate GoesOn(w: Worker) {
    IsActive(w) || w.LastActive? || w.Finishing?
  }

  lemma PushKeepsPending(s: State, p: nat, waiter: nat, t: State)
    requires p < |s.pushers| && StepPusher(s, p, waiter) == Some(t) && FlagPending(s)
    ensures FlagPending(t)
  {
    hide NoneAsleep;
    if w: nat :| w < |s.workers| && GoesOn(s.workers[w]) { assert GoesOn(t.workers[w]); }
    if q: nat :| q < |s.pushers| && Carries(s.pushers[q]) {
      assert Carries(t.pushers[q]) || t.queue != [];
    }
  }

  lemma WorkKeepsPending(s: State, w: nat, t: State)
    requires Reachable(s) && w < |s.workers| && StepWorker(s, w) == Some(t) && FlagPending(s)
    ensures FlagPending(t)
  {
    hide RunFrom;
    if q: nat :| q < |s.pushers| && Carries(s.pushers[q]) { assert Carries(t.pushers[q]); }
    if GoesOn(s.workers[w]) {
      GoesOnOrSets(s, w, t);
    } else {
      assert t.queue == s.queue;
      if v: nat :| v < |s.workers| && GoesOn(s.workers[v]) { assert GoesOn(t.workers[v]); }
    }
  }

  lemma GoesOnOrSets(s: State, w: nat, t: State)
    requires Reachable(s) && w < |s.workers| && StepWorker(s, w) == Some(t) && GoesOn(s.workers[w])
    ensures FlagPending(t)
  {
    hide RunFrom;
    if s.workers[w].Locked? {
      LastActiveExactly(s, w, t);
      if !t.workers[w].LastActive? {
        var v: nat :| v < |t.workers| && IsActive(t.workers[v]);
        assert GoesOn(t.workers[v]);
      }
    } else if s.workers[w].LastActive? {
      FinishingExactly(s, w, t);
      if !t.workers[w].Finishing? && s.queue == [] {
        var v: nat :| v < |s.workers| && s.workers[v].Taken?;
        assert GoesOn(t.workers[v]);
      }
    } else if !s.workers[w].Finishing? {
      assert GoesOn(t.workers[w]);
    }
    if GoesOn(t.workers[w]) { assert w < |t.workers| && GoesOn(t.workers[w]); }
  }

  lemma StepKeepsPending(s: State, a: Action, t: State)
    requires Reachable(s) && Step(s, a) == Some(t) && FlagPending(s)
    ensures FlagPending(t)
  {
    hide RunFrom, StepWorker, StepPusher, FlagPending, NoneAsleep;
    match a
    case PusherStep(p, waiter) => PushKeepsPending(s, p, waiter, t);
    case WorkerStep(w) => WorkKeepsPending(s, w, t);
    case _ => OthersKeepPending(s, a, t);
  }

  lemma OthersKeepPending(s: State, a: Action, t: State)
    requires !a.PusherStep? && !a.WorkerStep? && Step(s, a) == Some(t) && FlagPending(s)
    ensures FlagPending(t)
  {
    if w: nat :| w < |s.workers| && GoesOn(s.workers[w]) { assert GoesOn(t.workers[w]); }
    if q: nat :| q < |s.pushers| && Carries(s.pushers[q]) { assert Carries(t.pushers[q]); }
    if a.Post? { assert Carries(t.pushers[|s.pushers|]); }
  }

  lemma {:induction false} RunKeepsPending(actions: seq<Action>, s: State)
    requires RunFrom(START, actions) == Some(s)
    ensures FlagPending(s)
    decreases |actions|
  {
    hide Step, FlagPending;
    StartIsPending();
    if actions != [] {
      var fewer := actions[..|actions| - 1];
      var r := RunFrom(START, fewer).value;
      RunKeepsPending(fewer, r);
      StepKeepsPending(r, actions[|actions| - 1], s);
    }
  }

  lemma StartIsPending()
    ensures FlagPending(START)
  {
  }

  /** At rest nothing but queued work can be left, and that only if all workers are gone; with nothing queued every
      item posted has been run and the flag that waitAll waits for is set. */
  lemma RestIsFinished(s: State)
    requires Reachable(s) && AtRest(s)
    ensures s.queue == [] <==> AllDone(s)
    ensures s.queue == [] ==> s.allFinished
    ensures s.queue != [] ==> forall w: nat | w < |s.workers| :: s.workers[w].Gone?
    ensures s.size == |s.queue| && s.active == 0
  {
    hide RunFrom, AllDone, Inv, IsAwake, MutexHeld, EachOnce, SleepySawNothing;
    ReachableIsSound(s);
    NothingLeftIsDone(s);
    NothingLeftAtRest(s);
    var actions :| RunFrom(START, actions) == Some(s);
    RunKeepsPending(actions, s);
    RestIsNotPending(s);
    RestIsIdle(s);
    forall w: nat | s.queue != [] && w < |s.workers| ensures s.workers[w].Gone? {
      assert Rests(s.workers[w]);
      if s.workers[w].Asleep? { NobodyIsAwake(s, w); }
    }
  }

  lemma NothingLeftAtRest(s: State)
    requires AtRest(s)
    ensures NothingLeft(s) <==> s.queue == []
  {
    forall w: nat | w < |s.workers| ensures !Runs(s.workers[w]) { assert Rests(s.workers[w]); }
  }

  lemma RestIsNotPending(s: State)
    requires AtRest(s)
    ensures FlagPending(s) ==> s.allFinished || s.queue != []
  {
    forall w: nat | w < |s.workers| ensures !GoesOn(s.workers[w]) { assert Rests(s.workers[w]); }
  }

  lemma RestIsIdle(s: State)
    requires Inv(s) && AtRest(s)
    ensures s.size == |s.queue| && s.active == 0
  {
    hide Count, EachOnce, EnoughAwake, SleepySawNothing, MutexHeld;
    CountSome(s.workers, TAKEN);
    CountSome(s.workers, ACTIVE);
    CountSome(s.pushers, ANNOUNCED);
    forall w: nat | w < |s.workers| ensures !TAKEN(s.workers[w]) && !ACTIVE(s.workers[w]) {
      assert Rests(s.workers[w]);
    }
  }

  lemma NobodyIsAwake(s: State, w: nat)
    requires Reachable(s) && AtRest(s) && w < |s.workers| && s.workers[w].Asleep?
    ensures s.queue == []
  {
    hide Count, RunFrom;
    NoLostWakeUp(s, w);
    CountSome(s.workers, AWAKE);
    forall v: nat | v < |s.workers| ensures !AWAKE(s.workers[v]) { assert Rests(s.workers[v]); }
  }

  // ---- how the pool comes to rest ----

  lemma ReturnedStays(s: State, a: Action, t: State, p: nat)
    requires Progress.Has(a) && Step(s, a) == Some(t) && p < |s.pushers| && s.pushers[p].Returned?
    ensures p < |t.pushers| && t.pushers[p].Returned?
  {
    hide NoneAsleep;
  }

  ghost predicate HasReturned(s: State, p: nat) {
    p < |s.pushers| && s.pushers[p].Returned?
  }

  lemma ReturnedForGood(s: State, t: State, p: nat)
    requires HasReturned(s, p) && Leads(Progress, s, t)
    ensures HasReturned(t, p)
  {
    hide Step, Leads;
    forall x: State, a: Action, y: State | HasReturned(x, p) && Progress.Has(a) && Step(x, a) == Some(y)
        ensures HasReturned(y, p) {
      ReturnedStays(x, a, y, p);
    }
    LeadsStays(Progress, s, t, (x: State) => HasReturned(x, p));
  }

  ghost predicate HasPushers(s: State, n: nat) {
    |s.pushers| == n
  }

  lemma PushersStay(s: State, t: State)
    requires Leads(Progress, s, t)
    ensures |t.pushers| == |s.pushers|
  {
    hide Step, Leads;
    var n := |s.pushers|;
    forall x: State, a: Action, y: State | HasPushers(x, n) && Progress.Has(a) && Step(x, a) == Some(y)
        ensures HasPushers(y, n) {
      PushersStayOnce(x, a, y);
    }
    LeadsStays(Progress, s, t, (x: State) => HasPushers(x, n));
  }

  lemma PushersStayOnce(s: State, a: Action, t: State)
    requires Progress.Has(a) && Step(s, a) == Some(t)
    ensures |t.pushers| == |s.pushers|
  {
    hide NoneAsleep;
  }

  /** A call of push that holds the mutex goes on to return. */
  lemma {:induction false} HolderReturns(s: State, p: nat) returns (u: State)
    requires Inv(s) && s.owner == ByPusher(p)
    ensures Leads(Progress, s, u) && Inv(u) && u.owner == Free && HasReturned(u, p)
    decreases StepsLeft(s.pushers[p])
  {
    hide RunFrom, CountersAgree, SleepySawNothing, EnoughAwake, EachOnce, StepPusher, StepWorker, StepsLeft;
    LeadsNowhere(Progress, s);
    var a, t := PushMoves(s, p);
    StepKeeps(s, a, t);
    LeadsOn(Progress, s, s, a, t);
    if t.owner == Free {
      u := t;
    } else {
      u := HolderReturns(t, p);
      LeadsTwice(Progress, s, t, u);
    }
  }

  lemma PushReturns(s: State, p: nat) returns (u: State)
    requires Inv(s) && s.owner == Free && p < |s.pushers|
    ensures Leads(Progress, s, u) && Inv(u) && u.owner == Free && HasReturned(u, p)
  {
    hide RunFrom, CountersAgree, SleepySawNothing, EnoughAwake, EachOnce, StepWorker;
    LeadsNowhere(Progress, s);
    PusherWaits(s, p);
    if s.pushers[p].Returned? {
      u := s;
    } else {
      var t := Step(s, PusherStep(p, 0)).value;
      StepKeeps(s, PusherStep(p, 0), t);
      LeadsOn(Progress, s, s, PusherStep(p, 0), t);
      u := HolderReturns(t, p);
      LeadsTwice(Progress, s, t, u);
    }
  }

  /** The first n calls of push come to return. */
  lemma {:induction false} PushesReturn(s: State, n: nat) returns (u: State)
    requires Inv(s) && n <= |s.pushers|
    ensures Leads(Progress, s, u) && Inv(u) && u.owner == Free && forall p: nat | p < n :: HasReturned(u, p)
  {
    hide Inv, Leads;
    if n == 0 {
      u := MutexComesFree(s);
    } else {
      var t := PushesReturn(s, n - 1);
      PushersStay(s, t);
      u := PushReturns(t, n - 1);
      forall p: nat | p < n - 1 ensures HasReturned(u, p) { ReturnedForGood(t, u, p); }
      LeadsTwice(Progress, s, t, u);
    }
  }

  /** Items just taken by the first n workers are counted down. */
  lemma {:induction false} TakenAreRun(s: State, n: nat) returns (u: State)
    requires Inv(s) && s.owner == Free && AllReturned(s) && n <= |s.workers|
    ensures Leads(Progress, s, u) && Inv(u) && u.owner == Free && AllReturned(u) && |u.workers| == |s.workers|
    ensures forall w: nat | w < n :: !u.workers[w].Taken?
  {
    hide Inv, Leads, StepPusher;
    if n == 0 {
      LeadsNowhere(Progress, s);
      u := s;
    } else {
      var t := TakenAreRun(s, n - 1);
      u := t;
      if t.workers[n - 1].Taken? {
        u := StepWorker(t, n - 1).value;
        StepKeeps(t, WorkerStep(n - 1), u);
        LeadsOn(Progress, s, t, WorkerStep(n - 1), u);
      }
    }
  }

  /** Only worker v runs: the others hold nothing, and have taken nothing that is still counted. */
  ghost predicate Alone(s: State, v: nat) {
    && v < |s.workers| && AllReturned(s)
    && (s.owner == Free || s.owner == ByWorker(v))
    && forall w: nat | w < |s.workers| && w != v :: !s.workers[w].Taken?
  }

  /** How many steps a worker that runs alone is from its next item or, if there is none for it, from rest. */
  function Remaining(w: Worker, work: bool): nat {
    if work && IsAwake(w) then 1 + Distance(w)
    else
      match w
      case Leaving => 15
      case Taken(_) => 15
      case Working(_) => 14
      case Starting => 14
      case Taking(_) => 13
      case Locking(_) => 12
      case Locked(_) => 11
      case LastActive(_) => 10
      case Finishing(_) => 9
      case Left(_) => 8
      case Woken => 8
      case Deciding => 7
      case Ending => 1
      case Sleepy => 1
      case Asleep => 0
      case Gone => 0
  }

  lemma AloneIsCounted(s: State, v: nat)
    requires CountersAgree(s) && Alone(s, v)
    ensures s.size == |s.queue| + One(s.workers[v].Taken?)
  {
    hide Count;
    WorkerMoves(s, v, Gone);
    var others := s.workers[v := Gone];
    CountSome(others, TAKEN);
    forall w: nat | w < |others| ensures !TAKEN(others[w]) {
      if w != v { assert !s.workers[w].Taken?; }
    }
    CountSome(s.pushers, ANNOUNCED);
    forall p: nat | p < |s.pushers| ensures !ANNOUNCED(s.pushers[p]) { assert s.pushers[p].Returned?; }
  }

  lemma CloserToRest(s: State, v: nat, t: State)
    requires Alone(s, v) && SleepySawNothing(s) && s.size == |s.queue| + One(s.workers[v].Taken?)
    requires StepWorker(s, v) == Some(t) && (WorkerLocks(s.workers[v]) <==> s.owner == ByWorker(v))
    ensures Alone(t, v) && t.workers == s.workers[v := t.workers[v]]
    ensures |t.queue| < |s.queue| || (t.queue == s.queue &&
        Remaining(t.workers[v], t.queue != []) < Remaining(s.workers[v], s.queue != []))
  {
    if s.workers[v].Sleepy? { assert HasSeenNothing(s.workers[v]); }
  }

  /** A worker that runs alone comes to be blocked or gone. */
  lemma {:induction false} RunsToRest(s: State, v: nat) returns (u: State)
    requires Inv(s) && Alone(s, v)
    ensures Leads(Progress, s, u) && Inv(u) && Alone(u, v) && u.owner == Free && Rests(u.workers[v])
    ensures u.workers == s.workers[v := u.workers[v]]
    decreases |s.queue|, Remaining(s.workers[v], s.queue != [])
  {
    hide RunFrom, CountersAgree, EnoughAwake, EachOnce, StepWorker, StepPusher, Remaining, Alone, SleepySawNothing;
    AloneSteps(s, v);
    LeadsNowhere(Progress, s);
    if Rests(s.workers[v]) {
      u := s;
    } else {
      var t := StepWorker(s, v).value;
      AloneIsCounted(s, v);
      CloserToRest(s, v, t);
      StepKeeps(s, WorkerStep(v), t);
      LeadsOn(Progress, s, s, WorkerStep(v), t);
      u := RunsToRest(t, v);
      LeadsTwice(Progress, s, t, u);
    }
  }

  lemma AloneSteps(s: State, v: nat)
    requires MutexHeld(s) && Alone(s, v)
    ensures v < |s.workers| && (WorkerLocks(s.workers[v]) <==> s.owner == ByWorker(v))
    ensures Rests(s.workers[v]) ==> s.owner == Free
    ensures Rests(s.workers[v]) || StepWorker(s, v).Some?
  {
    assert WorkerLocks(s.workers[v]) <==> s.owner == ByWorker(v);
  }

  /** The first n workers, one after the other, come to be blocked or gone. */
  lemma {:induction false} WorkersRest(s: State, n: nat) returns (u: State)
    requires Inv(s) && s.owner == Free && AllReturned(s) && NoneTaken(s) && n <= |s.workers|
    ensures Leads(Progress, s, u) && Inv(u) && u.owner == Free && AllReturned(u) && NoneTaken(u)
    ensures |u.workers| == |s.workers| && forall w: nat | w < n :: Rests(u.workers[w])
  {
    hide Inv, Leads;
    if n == 0 {
      LeadsNowhere(Progress, s);
      u := s;
    } else {
      var t := WorkersRest(s, n - 1);
      u := RunsToRest(t, n - 1);
      LeadsTwice(Progress, s, t, u);
    }
  }

  /** From every state the threads can come to rest, without another call of push. */
  lemma ComesToRest(s: State) returns (u: State)
    requires Reachable(s)
    ensures Leads(Progress, s, u) && AtRest(u)
  {
    hide Inv, Leads, RunFrom;
    ReachableIsSound(s);
    var a := PushesReturn(s, |s.pushers|);
    PushersStay(s, a);
    forall p: nat | p < |a.pushers| ensures a.pushers[p].Returned? { assert HasReturned(a, p); }
    var b := TakenAreRun(a, |a.workers|);
    u := WorkersRest(b, |b.workers|);
    LeadsTwice(Progress, s, a, b);
    LeadsTwice(Progress, s, b, u);
  }

  // ---- kinds of work ----

  /** Whatever has this id is of this kind. */
  ghost predicate OfKind(s: State, id: nat, k: Kind) {
    && (forall p: nat | p < |s.pushers| && PusherHas(id)(s.pushers[p]) :: s.pushers[p].item.kind == k)
    && (forall w: nat | w < |s.workers| && WorkerHas(id)(s.workers[w]) :: s.workers[w].item.kind == k)
    && (forall i: nat | i < |s.queue| && s.queue[i].id == id :: s.queue[i].kind == k)
    && (forall i: nat | i < |s.done| && s.done[i].id == id :: s.done[i].kind == k)
  }

  ghost predicate PostedAs(s: State, id: nat, k: Kind) {
    id < s.posted && OfKind(s, id, k)
  }

  /** Where the items of a worker come from and go to. */
  lemma WorkerPasses(s: State, w: nat, t: State)
    requires w < |s.workers| && StepWorker(s, w) == Some(t)
    ensures w < |t.workers|
    ensures Runs(t.workers[w]) ==>
      (Runs(s.workers[w]) && t.workers[w].item == s.workers[w].item) ||
      (s.queue != [] && t.workers[w].item == s.queue[0])
    ensures t.queue == s.queue || (s.queue != [] && t.queue == s.queue[1..])
    ensures t.done == s.done || (s.workers[w].Working? && t.done == s.done + [s.workers[w].item])
  {
  }

  lemma WorkerKeepsKind(s: State, w: nat, t: State, id: nat, k: Kind)
    requires OfKind(s, id, k) && w < |s.workers| && StepWorker(s, w) == Some(t)
    ensures OfKind(t, id, k)
  {
    hide StepWorker, IsActive;
    WorkerStepBalances(s, w, t);
    WorkerPasses(s, w, t);
    if s.queue != [] { assert s.queue[0].id == id ==> s.queue[0].kind == k; }
    forall v: nat | v < |t.workers| && WorkerHas(id)(t.workers[v]) ensures t.workers[v].item.kind == k {
      assert v != w ==> t.workers[v] == s.workers[v];
      assert WorkerHas(id)(s.workers[v]) ==> s.workers[v].item.kind == k;
    }
    forall i: nat | i < |t.done| && t.done[i].id == id ensures t.done[i].kind == k {
      if i == |s.done| { assert WorkerHas(id)(s.workers[w]); }
    }
  }

  lemma PusherKeepsKind(s: State, p: nat, waiter: nat, t: State, id: nat, k: Kind)
    requires OfKind(s, id, k) && p < |s.pushers| && StepPusher(s, p, waiter) == Some(t)
    ensures OfKind(t, id, k)
  {
    hide NoneAsleep;
    forall q: nat | q < |t.pushers| && PusherHas(id)(t.pushers[q]) ensures t.pushers[q].item.kind == k {
      assert PusherHas(id)(s.pushers[q]);
    }
    forall v: nat | v < |t.workers| && WorkerHas(id)(t.workers[v]) ensures t.workers[v].item.kind == k {
      assert WorkerHas(id)(s.workers[v]);
    }
    forall i: nat | i < |t.queue| && t.queue[i].id == id ensures t.queue[i].kind == k {
      if i == |s.queue| { assert PusherHas(id)(s.pushers[p]); }
    }
  }

  lemma StepKeepsKind(s: State, a: Action, t: State, id: nat, k: Kind)
    requires PostedAs(s, id, k) && Step(s, a) == Some(t)
    ensures PostedAs(t, id, k)
  {
    hide StepWorker, StepPusher, NoneAsleep, OfKind;
    match a
    case WorkerStep(w) =>
      WorkerStepBalances(s, w, t);
      WorkerKeepsKind(s, w, t, id, k);
    case PusherStep(p, waiter) =>
      PushingPostsNothing(s, p, waiter, t);
      PusherKeepsKind(s, p, waiter, t, id, k);
    case _ => OthersKeepKind(s, a, t, id, k);
  }

  lemma PushingPostsNothing(s: State, p: nat, waiter: nat, t: State)
    requires p < |s.pushers| && StepPusher(s, p, waiter) == Some(t)
    ensures t.posted == s.posted
  {
    hide NoneAsleep;
  }

  lemma OthersKeepKind(s: State, a: Action, t: State, id: nat, k: Kind)
    requires PostedAs(s, id, k) && !a.PusherStep? && !a.WorkerStep? && Step(s, a) == Some(t)
    ensures PostedAs(t, id, k)
  {
    forall p: nat | p < |t.pushers| && PusherHas(id)(t.pushers[p]) ensures t.pushers[p].item.kind == k {
      if p < |s.pushers| { assert PusherHas(id)(s.pushers[p]); }
    }
    forall v: nat | v < |t.workers| && WorkerHas(id)(t.workers[v]) ensures t.workers[v].item.kind == k {
      if v < |s.workers| { assert WorkerHas(id)(s.workers[v]); }
    }
  }

  /** A posted item keeps its kind on its way to the queue, to a worker and to what is done. */
  lemma PostedKeepsKind(s: State, k: Kind, t: State, u: State)
    requires Reachable(s) && Step(s, Post(k)) == Some(t) && Leads(Any, t, u)
    ensures OfKind(u, s.posted, k) && Places(u, s.posted) == 1
  {
    hide RunFrom, OfKind, Places, Leads;
    JustPosted(s, k, t);
    hide Step;
    forall x: State, a: Action, y: State | PostedAs(x, s.posted, k) && Any.Has(a) && Step(x, a) == Some(y)
      ensures PostedAs(y, s.posted, k)
    {
      StepKeepsKind(x, a, y, s.posted, k);
    }
    LeadsStays(Any, t, u, (x: State) => PostedAs(x, s.posted, k));
    EachOnceLater(s, k, t, u);
  }

  lemma EachOnceLater(s: State, k: Kind, t: State, u: State)
    requires Reachable(s) && Step(s, Post(k)) == Some(t) && Leads(Any, t, u) && s.posted < u.posted
    ensures Places(u, s.posted) == 1
  {
    hide RunFrom, Step, Places, MutexHeld, CountersAgree, SleepySawNothing, EnoughAwake;
    ReachableIsSound(s);
    StepKeeps(s, Post(k), t);
    LeadsKeeps(Any, t, u);
    assert Places(u, s.posted) == One(s.posted < u.posted);
  }

  lemma JustPosted(s: State, k: Kind, t: State)
    requires Reachable(s) && Step(s, Post(k)) == Some(t)
    ensures PostedAs(t, s.posted, k)
  {
    hide Count, RunFrom, MutexHeld, CountersAgree, SleepySawNothing, EnoughAwake;
    ReachableIsSound(s);
    var id := s.posted;
    assert Places(s, id) == One(id < s.posted) == 0;
    CountSome(s.pushers, PusherHas(id));
    CountSome(s.queue, IsItem(id));
    CountSome(s.workers, WorkerHas(id));
    CountSome(s.done, IsItem(id));
    forall i: nat | i < |s.queue| ensures s.queue[i].id != id { assert !IsItem(id)(s.queue[i]); }
    forall i: nat | i < |s.done| ensures s.done[i].id != id { assert !IsItem(id)(s.done[i]); }
  }

  /** Worker w runs this item, or has run it and takes no other. */
  ghost predicate EndsAfter(s: State, w: nat, item: Item) {
    w < |s.workers| &&
      match s.workers[w]
      case Taken(i) => i == item
      case Working(i) => i == item
      case Taking(last) => last == Terminal && item in s.done
      case Locking(last) => last == Terminal && item in s.done
      case Locked(last) => last == Terminal && item in s.done
      case LastActive(last) => last == Terminal && item in s.done
      case Finishing(last) => last == Terminal && item in s.done
      case Left(last) => last == Terminal && item in s.done
      case Ending => item in s.done
      case Gone => item in s.done
      case _ => false
  }

  lemma EndsAfterStays(s: State, a: Action, t: State, w: nat, item: Item)
    requires EndsAfter(s, w, item) && item.kind == Terminal && Step(s, a) == Some(t)
    ensures EndsAfter(t, w, item)
  {
    hide StepWorker, StepPusher;
    DoneGrows(s, a, t);
    if a == WorkerStep(w) {
      OwnStepEnds(s, w, t, item);
    } else {
      OthersLeave(s, a, t, w);
    }
  }

  lemma OwnStepEnds(s: State, w: nat, t: State, item: Item)
    requires EndsAfter(s, w, item) && item.kind == Terminal && StepWorker(s, w) == Some(t)
    requires forall item | item in s.done :: item in t.done
    ensures EndsAfter(t, w, item)
  {
    if s.workers[w].Working? { assert t.done[|s.done|] == item; }
  }

  lemma DoneGrows(s: State, a: Action, t: State)
    requires Step(s, a) == Some(t)
    ensures forall item | item in s.done :: item in t.done
  {
    hide NoneAsleep;
    assert s.done <= t.done;
  }

  lemma EndsAfterForGood(k: Steps, s: State, u: State, w: nat, item: Item)
    requires EndsAfter(s, w, item) && item.kind == Terminal && Leads(k, s, u)
    ensures EndsAfter(u, w, item)
  {
    hide Step, Leads, EndsAfter;
    forall x: State, a: Action, y: State | EndsAfter(x, w, item) && k.Has(a) && Step(x, a) == Some(y)
      ensures EndsAfter(y, w, item)
    {
      EndsAfterStays(x, a, y, w, item);
    }
    LeadsStays(k, s, u, (x: State) => EndsAfter(x, w, item));
  }

  /** A worker that takes a TERMINAL item runs it, takes no other whatever happens, and can come to its end. */
  lemma TerminalEnds(s: State, w: nat, item: Item)
    requires Reachable(s) && w < |s.workers| && s.workers[w] == Taken(item) && item.kind == Terminal
    ensures forall u | Leads(Any, s, u) :: EndsAfter(u, w, item)
    ensures exists u :: Leads(Progress, s, u) && w < |u.workers| && u.workers[w].Gone? && item in u.done
  {
    hide RunFrom, Step, Leads;
    forall u | Leads(Any, s, u) ensures EndsAfter(u, w, item) {
      EndsAfterForGood(Any, s, u, w, item);
    }
    var u := ComesToRest(s);
    EndsAfterForGood(Progress, s, u, w, item);
    assert Rests(u.workers[w]);
  }
}
